/**
 * The proof-of-work rule: a digest is acceptable when its text begins with
 * `Difficulty` zero characters.
 */
module Work {

  /** Number of leading '0' characters a mined block's hash must have. */
  const Difficulty: nat := 2

  /** The string of `n` zero characters. */
  function Zeros(n: nat): (z: string)
    ensures |z| == n
  {
    if n == 0 then "" else "0" + Zeros(n - 1)
  }

  /** Python's `s.startswith(prefix)`. */
  predicate StartsWith(s: string, prefix: string)
  {
    |prefix| <= |s| && s[..|prefix|] == prefix
  }

  /** How many '0' characters `s` begins with. */
  function LeadingZeros(s: string): (n: nat)
    ensures n <= |s|
  {
    if s != [] && s[0] == '0' then 1 + LeadingZeros(s[1..]) else 0
  }

  /** The difficulty test applied to a candidate hash. */
  predicate MeetsDifficulty(h: string)
  {
    StartsWith(h, Zeros(Difficulty))
  }

  /** Starting with `d` zeros is the same as having at least `d` leading zeros. */
  lemma {:induction false} StartsWithZeros(s: string, d: nat)
    ensures StartsWith(s, Zeros(d)) <==> LeadingZeros(s) >= d
  {
    if d > 0 && s != [] {
      StartsWithZeros(s[1..], d - 1);
      if d <= |s| {
        var head, rest := s[..d], s[1..][..d - 1];
        assert head == [s[0]] + rest;
        assert Zeros(d) == ['0'] + Zeros(d - 1);
        assert head == Zeros(d) <==> s[0] == '0' && rest == Zeros(d - 1) by {
          if head == Zeros(d) {
            assert head[0] == '0' && head[1..] == rest;
          }
        }
      }
    }
  }
}
