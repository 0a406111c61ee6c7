/** Wire-level constants shared by the server and the client, and the C
    integer widths the server's records are built from. */
module Protocol {

  /** Unsigned C integers of fixed width. */
  type U8 = n: int | 0 <= n < 0x100
  type U16 = n: int | 0 <= n < 0x1_0000
  type U32 = n: int | 0 <= n < 0x1_0000_0000
  type U64 = n: int | 0 <= n < 0x1_0000_0000_0000_0000

  const Two8: int := 0x100
  const Two16: int := 0x1_0000
  const Two32: int := 0x1_0000_0000
  const Two64: int := 0x1_0000_0000_0000_0000

  /** `(uint8_t)v`: the low eight bits of any C integer expression. */
  function CastU8(v: int): (r: U8)
    ensures 0 <= v < Two8 ==> r == v
    ensures (r - v) % Two8 == 0
  {
    v % Two8
  }

  /** Unsigned 64-bit subtraction, which wraps when `b > a`. */
  function SubU64(a: U64, b: U64): (r: U64)
    ensures r == (a - b) % Two64
  {
    if b <= a then a - b else a - b + Two64
  }

  /** Wrapping subtraction undoes wrapping addition, and the reverse. */
  lemma SubAddRoundTrip(a: U64, b: U64)
    ensures AddU64(SubU64(a, b), b) == a
    ensures SubU64(AddU64(a, b), b) == a
  {
  }

  /** Unsigned 64-bit addition, which wraps past 2^64 - 1. */
  function AddU64(a: U64, b: U64): (r: U64)
    ensures a + b < Two64 ==> r == a + b
    ensures Two64 <= a + b ==> r == a + b - Two64
  {
    (a + b) % Two64
  }

  /** `v % m` on non-negative C integers, written as repeated subtraction
      so that reasoning about the search box stays linear; RemIsMod ties
      it to Dafny's `%`. */
  function Rem(v: nat, m: nat): (r: nat)
    requires 0 < m
    ensures r < m && r <= v
    decreases v
  {
    if v < m then v else Rem(v - m, m)
  }

  lemma {:induction false} RemIsMod(v: nat, m: nat)
    requires 0 < m
    ensures Rem(v, m) == v % m
    decreases v
  {
    if m <= v {
      RemIsMod(v - m, m);
      ModStep(v - m, m);
    }
  }

  /** Adding the divisor leaves the remainder unchanged. */
  lemma ModStep(a: nat, m: nat)
    requires 0 < m
    ensures (a + m) % m == a % m
  {
    var q, r := a / m, a % m;
    var q2, r2 := (a + m) / m, (a + m) % m;
    assert a == m * q + r;
    assert a + m == m * q2 + r2;
    var k := q2 - q - 1;
    assert m * k == r - r2;
    if k >= 1 { MulAtLeast(m, k); }
    else if k <= -1 { MulAtLeast(m, -k); }
  }

  lemma MulAtLeast(m: int, k: int)
    requires 0 < m && 1 <= k
    ensures m <= m * k
  {}

  /** Message type identifiers carried in the 16-bit header field. */
  const MsgJoin: U16 := 1
  const MsgWelcome: U16 := 2
  const MsgText: U16 := 3
  const MsgError: U16 := 4
  const MsgInput: U16 := 10
  const MsgState: U16 := 11
  const MsgShutdown: U16 := 12
  const MsgPause: U16 := 13
  const MsgLeave: U16 := 14
  const MsgRespawn: U16 := 15
  const MsgGameOver: U16 := 16

  /** Direction values. On the wire a direction is one byte, and the
      server stores whatever byte arrives, so any U8 can reach the engine. */
  const DirUp: U8 := 0
  const DirRight: U8 := 1
  const DirDown: U8 := 2
  const DirLeft: U8 := 3

  /** Size of the INPUT payload (one direction byte). */
  const InputMessageSize: nat := 1

  const StateMaxWidth: nat := 80
  const StateMaxHeight: nat := 40
  /** Size of the grid in a STATE message, one byte per cell, row-major. */
  const StateMaxCells: nat := StateMaxWidth * StateMaxHeight
  const StateMaxPlayers: nat := 64
  const StateNameMax: nat := 32

  datatype GameMode = Standard | Timed
}
