/** Big-endian packing of bytes into 32-bit words, as `make_uint32`,
    `get_byte`, `load_be` and `store_be` do in Botan's loadstor.h (which
    is not part of this model). */
module LoadStore {

  /** `make_uint32`: four bytes, most significant first. */
  function MakeUint32(a: bv8, b: bv8, c: bv8, d: bv8): bv32
  {
    ((a as bv32) << 24) | ((b as bv32) << 16) | ((c as bv32) << 8) | (d as bv32)
  }

  /** `get_byte<i>`: byte i of a word, counting from the most significant. */
  function GetByte(x: bv32, i: nat): bv8
    requires i < 4
  {
    match i
    case 0 => (x >> 24) as bv8
    case 1 => ((x >> 16) & 0xFF) as bv8
    case 2 => ((x >> 8) & 0xFF) as bv8
    case _ => (x & 0xFF) as bv8
  }

  /** `load_be<uint32_t>` of four bytes. */
  function LoadWord(b: seq<bv8>): (w: bv32)
    requires |b| == 4
    ensures StoreWord(w) == b
  {
    MakeUint32(b[0], b[1], b[2], b[3])
  }

  /** `store_be` of one word. */
  function StoreWord(x: bv32): (r: seq<bv8>)
    ensures |r| == 4
  {
    [GetByte(x, 0), GetByte(x, 1), GetByte(x, 2), GetByte(x, 3)]
  }

  lemma LoadStoreWord(x: bv32)
    ensures LoadWord(StoreWord(x)) == x
  {
  }
}
