/** Finding an unused alias (genUniqPeerAlias of config/config.go). */
module Aliases {
  const DEFAULT_PEER_ALIAS := "peer"

  const DIGITS: string := "0123456789"

  function Decimal(n: nat): (s: string)
    ensures |s| > 0
  {
    if n < 10 then [DIGITS[n]] else Decimal(n / 10) + [DIGITS[n % 10]]
  }

  lemma {:induction false} DecimalInjective(a: nat, b: nat)
    requires Decimal(a) == Decimal(b)
    ensures a == b
    decreases a
  {
    var s, t := Decimal(a), Decimal(b);
    assert s[|s| - 1] == DIGITS[a % 10] && t[|t| - 1] == DIGITS[b % 10];
    assert a % 10 == b % 10;
    if a >= 10 && b >= 10 {
      assert s[..|s| - 1] == Decimal(a / 10) && t[..|t| - 1] == Decimal(b / 10);
      DecimalInjective(a / 10, b / 10);
    }
  }

  /** What a string of digits says. */
  function Reads(s: string): nat {
    if s == "" then 0 else 10 * Reads(s[..|s| - 1]) + (if '0' <= s[|s| - 1] <= '9' then s[|s| - 1] as int - '0' as int else 0)
  }

  lemma {:induction false} DecimalReads(n: nat)
    ensures Reads(Decimal(n)) == n && forall c :: c in Decimal(n) ==> '0' <= c <= '9'
  {
    var s := Decimal(n);
    assert forall i :: 0 <= i < 10 ==> DIGITS[i] as int == '0' as int + i;
    if n >= 10 {
      DecimalReads(n / 10);
      assert s[..|s| - 1] == Decimal(n / 10);
    } else {
      assert s[..0] == "";
    }
  }

  /** `fmt.Sprintf("%s_%d", alias, i)`. */
  function Numbered(alias: string, i: nat): string {
    alias + "_" + Decimal(i)
  }

  lemma NumberedInjective(alias: string, i: nat, j: nat)
    requires Numbered(alias, i) == Numbered(alias, j)
    ensures i == j
  {
    var s := Numbered(alias, i);
    assert s[|alias| + 1..] == Decimal(i) && Numbered(alias, j)[|alias| + 1..] == Decimal(j);
    DecimalInjective(i, j);
  }

  function Base(name: string, alias: string): string {
    if alias != "" then alias else if name != "" then name else DEFAULT_PEER_ALIAS
  }

  /** What a fresh alias looks like: the wished one if it is free, otherwise its first free numbered variant. */
  ghost predicate IsFresh(name: string, alias: string, used: set<string>, r: string) {
    var base := Base(name, alias);
    && r !in used
    && if base !in used then r == base
       else exists i: nat :: r == Numbered(base, i) && forall j: nat :: j < i ==> Numbered(base, j) in used
  }

  method GenUniqPeerAlias(name: string, alias: string, used: set<string>) returns (r: string)
    ensures IsFresh(name, alias, used, r) && r !in used
    ensures alias != "" ==> if alias !in used then r == alias else exists i :: r == alias + "_" + Decimal(i)
    ensures alias == "" && name != "" ==> if name !in used then r == name else exists i :: r == name + "_" + Decimal(i)
    ensures alias == "" && name == "" ==> if "peer" !in used then r == "peer" else exists i :: r == "peer" + "_" + Decimal(i)
  {
    r := Base(name, alias);
    if r in used {
      var base := r;
      var i := 0;
      r := Numbered(base, i);
      ghost var left := used;
      while r in used
        invariant r == Numbered(base, i) && left <= used
        invariant forall j: nat :: j < i ==> Numbered(base, j) in used
        invariant forall j: nat :: i <= j && Numbered(base, j) in used ==> Numbered(base, j) in left
        decreases |left|
      {
        forall j: nat | i < j ensures Numbered(base, j) != r {
          if Numbered(base, j) == r { NumberedInjective(base, j, i); }
        }
        left := left - {r};
        i := i + 1;
        r := Numbered(base, i);
      }
    }
  }

  /** There is exactly one fresh alias, so callers that agree on the used set agree on the outcome. */
  lemma FreshUnique(name: string, alias: string, used: set<string>, r: string, r': string)
    requires IsFresh(name, alias, used, r) && IsFresh(name, alias, used, r')
    ensures r == r'
  {
  }
}
