/** Configuration constants, result kinds and the cursor of the key-value store. */
module KvTypes {

  /** Longest key a record may have, and the capacity of a cursor's key buffer. */
  const MAX_KEY_SIZE: nat := 16
  /** Width in bytes of the key-length field of a slot. */
  const KEY_SIZE_BYTES: nat := 4
  /** Width in bytes of the value-length field of a slot. */
  const VALUE_SIZE_BYTES: nat := 4
  /** Width in bytes of the magic header that starts every slot. */
  const HEADER_SIZE_BYTES: nat := 4
  /** The magic header, identical for every slot. */
  const HEADER_MAGIC: seq<byte> := [0xf8, 0x2a, 0x93, 0x11]
  /** A length field holds a 32-bit unsigned integer. */
  const FIELD_MODULUS: nat := 0x1_0000_0000

  /** One backend byte. */
  newtype byte = x: int | 0 <= x < 256

  datatype Option<+T> = None | Some(value: T)

  /** The four result kinds every public operation returns. */
  datatype Status = Ok | Failed | BadArg | NotFound

  /** The numeric code of a result kind. */
  function Code(s: Status): (c: int)
    ensures -3 <= c <= 0
    ensures FromCode(c) == Some(s)
  {
    match s
    case Ok => 0
    case Failed => -1
    case BadArg => -2
    case NotFound => -3
  }

  /** The result kind with a given numeric code, if any. */
  function FromCode(c: int): (r: Option<Status>)
    ensures r.Some? <==> -3 <= c <= 0
  {
    if c == 0 then Some(Ok)
    else if c == -1 then Some(Failed)
    else if c == -2 then Some(BadArg)
    else if c == -3 then Some(NotFound)
    else None
  }

  /** The four kinds are pairwise distinct: distinct kinds have distinct codes. */
  lemma CodeInjective(a: Status, b: Status)
    ensures Code(a) == Code(b) ==> a == b
  {
    if Code(a) == Code(b) {
      assert Some(a) == FromCode(Code(a)) == FromCode(Code(b)) == Some(b);
    }
  }

  /** A scan position plus the key a search looks for. */
  class Cursor {
    var position: nat
    var key: seq<byte>

    /** The key fits the cursor's fixed key buffer. */
    ghost predicate Valid()
      reads this
    {
      |key| <= MAX_KEY_SIZE
    }

    constructor ()
      ensures Valid() && position == 0 && key == []
    {
      position := 0;
      key := [];
    }
  }
}
