/** Request tokens (`golioth_coap_next_token`): eight bytes, read as a 64-bit number, incremented and
    written back on every call. */
module Tokens {
  import opened Basics

  const TOKEN_LEN: nat := 8

  function Pow256(n: nat): (r: nat)
    ensures r >= 1
  {
    if n == 0 then 1 else 256 * Pow256(n - 1)
  }

  /** The number of tokens: 2^64. */
  const TOKENS: nat := 0x1_0000_0000_0000_0000

  lemma TokenCount()
    ensures Pow256(TOKEN_LEN) == TOKENS
  {
    assert Pow256(2) == 256 * Pow256(1);
    assert Pow256(4) == 256 * Pow256(3) && Pow256(3) == 256 * Pow256(2);
    assert Pow256(6) == 256 * Pow256(5) && Pow256(5) == 256 * Pow256(4);
    assert Pow256(8) == 256 * Pow256(7) && Pow256(7) == 256 * Pow256(6);
  }

  /** Bytes as a little-endian number, the way `memcpy` into a `uint64_t` reads them. */
  function ToNumber(bytes: seq<Byte>): nat {
    if bytes == [] then 0 else bytes[0] as nat + 256 * ToNumber(bytes[1..])
  }

  function ToBytes(n: nat, len: nat): (bytes: seq<Byte>)
    ensures |bytes| == len
  {
    if len == 0 then [] else [n % 256] + ToBytes(n / 256, len - 1)
  }

  lemma {:induction false} NumberBound(bytes: seq<Byte>)
    ensures ToNumber(bytes) < Pow256(|bytes|)
  {
    if bytes != [] {
      NumberBound(bytes[1..]);
    }
  }

  lemma {:induction false} NumberRoundTrip(n: nat, len: nat)
    requires n < Pow256(len)
    ensures ToNumber(ToBytes(n, len)) == n
  {
    if len > 0 {
      NumberRoundTrip(n / 256, len - 1);
      assert ToBytes(n, len)[1..] == ToBytes(n / 256, len - 1);
    }
  }

  /** The bytes after one call. */
  function NextToken(stored: seq<Byte>): (token: seq<Byte>)
    requires |stored| == TOKEN_LEN
    ensures |token| == TOKEN_LEN
  {
    ToBytes((ToNumber(stored) + 1) % TOKENS, TOKEN_LEN)
  }

  /** The token handed out by the n-th call (n >= 1) after the store was seeded. */
  function TokenAt(seed: seq<Byte>, n: nat): (token: seq<Byte>)
    requires |seed| == TOKEN_LEN
    ensures |token| == TOKEN_LEN
  {
    if n == 0 then seed else NextToken(TokenAt(seed, n - 1))
  }

  lemma {:induction false} TokenClosedForm(seed: seq<Byte>, n: nat)
    requires |seed| == TOKEN_LEN
    ensures ToNumber(TokenAt(seed, n)) == (ToNumber(seed) + n) % TOKENS
  {
    TokenCount();
    NumberBound(seed);
    if n > 0 {
      TokenClosedForm(seed, n - 1);
      NumberRoundTrip((ToNumber(TokenAt(seed, n - 1)) + 1) % TOKENS, TOKEN_LEN);
      AddMod(ToNumber(seed) + n - 1);
    }
  }

  lemma AddMod(a: int)
    ensures (a % TOKENS + 1) % TOKENS == (a + 1) % TOKENS
  {
  }

  lemma {:induction false} NumberInjective(a: seq<Byte>, b: seq<Byte>)
    requires |a| == |b| && ToNumber(a) == ToNumber(b)
    ensures a == b
  {
    if a != [] {
      NumberInjective(a[1..], b[1..]);
      assert a == [a[0]] + a[1..] && b == [b[0]] + b[1..];
    }
  }

  lemma SameResidue(a: nat, i: nat, j: nat)
    requires i <= j
    ensures (a + i) % TOKENS == (a + j) % TOKENS <==> (j - i) % TOKENS == 0
  {
  }

  /** Two calls hand out the same token exactly when their numbers differ by a multiple of 2^64; so
      fewer than 2^64 calls hand out pairwise different tokens. */
  lemma TokensRepeatExactlyAfterAllAreUsed(seed: seq<Byte>, i: nat, j: nat)
    requires |seed| == TOKEN_LEN && i <= j
    ensures TokenAt(seed, i) == TokenAt(seed, j) <==> (j - i) % TOKENS == 0
    ensures 0 < j - i < TOKENS ==> TokenAt(seed, i) != TokenAt(seed, j)
  {
    TokenClosedForm(seed, i);
    TokenClosedForm(seed, j);
    SameResidue(ToNumber(seed), i, j);
    if (j - i) % TOKENS == 0 {
      NumberInjective(TokenAt(seed, i), TokenAt(seed, j));
    }
  }

  /** The static store of `golioth_coap_next_token`. */
  class TokenStore {
    var stored: seq<Byte>
    ghost const seed: seq<Byte>
    ghost var calls: nat

    ghost predicate Valid()
      reads this
    {
      |seed| == TOKEN_LEN && stored == TokenAt(seed, calls)
    }

    constructor (random: seq<Byte>)
      requires |random| == TOKEN_LEN
      ensures Valid() && seed == random && calls == 0
    {
      stored, seed, calls := random, random, 0;
    }

    method Next() returns (token: seq<Byte>)
      requires Valid()
      modifies this
      ensures Valid() && calls == old(calls) + 1 && token == TokenAt(seed, calls)
    {
      var number := ToNumber(stored);
      number := (number + 1) % TOKENS;
      stored := ToBytes(number, TOKEN_LEN);
      calls := calls + 1;
      token := stored;
    }
  }
}
