/** 64-bit words and memory. */
module Machine {

  const WORD := 0x1_0000_0000_0000_0000

  function U64(x: int): (r: nat)
    ensures r < WORD
  {
    x % WORD
  }

  /** The value of a 64-bit word as a signed number. */
  function S64(x: int): (r: int)
    ensures -WORD / 2 <= r < WORD / 2 && U64(r) == U64(x)
  {
    var u := U64(x);
    if u < WORD / 2 then u else u - WORD
  }

  /** memcpy */
  method Copy<T>(buf: array<T>, at: nat, data: seq<T>)
    requires at + |data| <= buf.Length
    modifies buf
    ensures buf[at..at + |data|] == data && buf[..at] == old(buf[..at])
  {
    for i := 0 to |data|
      invariant buf[at..at + i] == data[..i] && buf[..at] == old(buf[..at])
    {
      buf[at + i] := data[i];
      assert buf[at..at + i + 1] == buf[at..at + i] + [data[i]];
    }
  }
}
