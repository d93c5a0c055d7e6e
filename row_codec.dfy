/**
 * The row codec: a `Row` value and its fixed 291-byte encoding
 * (`serialize_row` / `deserialize_row`). The id is written in one fixed byte
 * order, least significant byte first.
 */
module RowCodec {
  import opened Layout

  /**
   * A row: a 32-bit unsigned id and two fixed-width byte columns. The C
   * struct holds `char[32]` and `char[255]` arrays, so a row is well formed
   * exactly when the columns have those lengths.
   */
  datatype Row = Row(id: bv32, username: seq<bv8>, email: seq<bv8>) {
    predicate Valid() {
      |username| == USERNAME_SIZE && |email| == EMAIL_SIZE
    }
  }

  /** The four bytes of an id, least significant first. */
  function EncodeId(id: bv32): (bytes: seq<bv8>)
    ensures |bytes| == ID_SIZE
  {
    [(id & 0xFF) as bv8, ((id >> 8) & 0xFF) as bv8, ((id >> 16) & 0xFF) as bv8, (id >> 24) as bv8]
  }

  /** Reads an id back from its four bytes; every 4-byte block is the encoding of the id it decodes to. */
  function DecodeId(bytes: seq<bv8>): (id: bv32)
    requires |bytes| == ID_SIZE
    ensures EncodeId(id) == bytes
  {
    (bytes[0] as bv32) | (bytes[1] as bv32 << 8) | (bytes[2] as bv32 << 16) | (bytes[3] as bv32 << 24)
  }

  /** Decoding the encoding of an id gives the id back. */
  lemma IdRoundTrip(id: bv32)
    ensures DecodeId(EncodeId(id)) == id
  {
  }

  /** The 291-byte block for a row: each field at its own offset, nothing else. */
  function Serialize(row: Row): (bytes: seq<bv8>)
    requires row.Valid()
    ensures |bytes| == ROW_SIZE
    ensures bytes[ID_OFFSET..USERNAME_OFFSET] == EncodeId(row.id)
    ensures bytes[USERNAME_OFFSET..EMAIL_OFFSET] == row.username
    ensures bytes[EMAIL_OFFSET..ROW_SIZE] == row.email
  {
    EncodeId(row.id) + row.username + row.email
  }

  /** The row stored in a 291-byte block, read at the same offsets; every block is the encoding of the row it decodes to. */
  function Deserialize(bytes: seq<bv8>): (row: Row)
    requires |bytes| == ROW_SIZE
    ensures row.Valid()
    ensures Serialize(row) == bytes
  {
    var row := Row(DecodeId(bytes[ID_OFFSET..USERNAME_OFFSET]),
                   bytes[USERNAME_OFFSET..EMAIL_OFFSET],
                   bytes[EMAIL_OFFSET..ROW_SIZE]);
    assert Serialize(row) == bytes[ID_OFFSET..USERNAME_OFFSET] + bytes[USERNAME_OFFSET..EMAIL_OFFSET] + bytes[EMAIL_OFFSET..ROW_SIZE];
    row
  }

  /** Round trip: decoding the encoding of a row gives the row back, field for field. */
  lemma RoundTrip(row: Row)
    requires row.Valid()
    ensures Deserialize(Serialize(row)) == row
  {
    var bytes := Serialize(row);
    IdRoundTrip(row.id);
    assert bytes[ID_OFFSET..USERNAME_OFFSET] == EncodeId(row.id);
  }

  /** Two rows with the same encoding are the same row. */
  lemma SerializeInjective(r1: Row, r2: Row)
    requires r1.Valid() && r2.Valid()
    requires Serialize(r1) == Serialize(r2)
    ensures r1 == r2
  {
    RoundTrip(r1);
    RoundTrip(r2);
  }

  /**
   * Copies `src` into `dest` at offset `at`, as `memcpy(dest + at, src, |src|)`:
   * only the bytes `[at, at + |src|)` change.
   */
  method CopyInto(dest: array<bv8>, at: nat, src: seq<bv8>)
    requires at + |src| <= dest.Length
    modifies dest
    ensures dest[at..at + |src|] == src
    ensures forall k :: 0 <= k < dest.Length && !(at <= k < at + |src|) ==> dest[k] == old(dest[k])
  {
    var i := 0;
    while i < |src|
      invariant 0 <= i <= |src|
      invariant forall k :: 0 <= k < i ==> dest[at + k] == src[k]
      invariant forall k :: 0 <= k < dest.Length && !(at <= k < at + i) ==> dest[k] == old(dest[k])
    {
      dest[at + i] := src[i];
      i := i + 1;
    }
    assert forall k :: 0 <= k < |src| ==> dest[at..at + |src|][k] == src[k];
  }

  /** Copies `count` bytes out of `src` from offset `at`, as `memcpy(field, src + at, count)`. */
  method CopyOut(src: array<bv8>, at: nat, count: nat) returns (bytes: seq<bv8>)
    requires at + count <= src.Length
    ensures bytes == src[at..at + count]
  {
    bytes := [];
    var i := 0;
    while i < count
      invariant 0 <= i <= count
      invariant bytes == src[at..at + i]
    {
      bytes := bytes + [src[at + i]];
      i := i + 1;
    }
  }

  /**
   * `serialize_row`: writes the encoding of `source` into `dest` at offset `at`.
   * The slot `[at, at + ROW_SIZE)` then holds `Serialize(source)` and no other byte changes.
   */
  method SerializeRow(source: Row, dest: array<bv8>, at: nat)
    requires source.Valid()
    requires at + ROW_SIZE <= dest.Length
    modifies dest
    ensures dest[at..at + ROW_SIZE] == Serialize(source)
    ensures forall k :: 0 <= k < dest.Length && !(at <= k < at + ROW_SIZE) ==> dest[k] == old(dest[k])
  {
    var idBytes := EncodeId(source.id);
    CopyInto(dest, at + ID_OFFSET, idBytes);
    CopyInto(dest, at + USERNAME_OFFSET, source.username);
    CopyInto(dest, at + EMAIL_OFFSET, source.email);
    assert forall k :: 0 <= k < ROW_SIZE ==> dest[at + k] == Serialize(source)[k] by {
      forall k | 0 <= k < ROW_SIZE ensures dest[at + k] == Serialize(source)[k] {
        if k < USERNAME_OFFSET {
          assert Serialize(source)[k] == idBytes[k];
        } else if k < EMAIL_OFFSET {
          assert Serialize(source)[k] == source.username[k - USERNAME_OFFSET];
        }
      }
    }
  }

  /**
   * `deserialize_row`, reading from `src + offset` as intended: the row whose
   * encoding is the slot `[at, at + ROW_SIZE)` of `src`. The buffer is only read.
   */
  method DeserializeRow(src: array<bv8>, at: nat) returns (dest: Row)
    requires at + ROW_SIZE <= src.Length
    ensures dest.Valid()
    ensures Serialize(dest) == src[at..at + ROW_SIZE]
  {
    var idBytes := CopyOut(src, at + ID_OFFSET, ID_SIZE);
    var username := CopyOut(src, at + USERNAME_OFFSET, USERNAME_SIZE);
    var email := CopyOut(src, at + EMAIL_OFFSET, EMAIL_SIZE);
    dest := Row(DecodeId(idBytes), username, email);
    assert src[at..at + ROW_SIZE] == idBytes + username + email;
  }
}
