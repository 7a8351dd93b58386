/**
 * Decimal rendering of non-negative integers, as Go's strconv.Itoa writes it,
 * and its inverse. getItemByID compares strconv.Itoa(i+1) with the path
 * parameter, and the database driver renders an integer row id into the
 * string field Item.Id the same way.
 */
module Decimal {

  predicate IsDigit(c: char) { '0' <= c <= '9' }

  function DigitValue(c: char): (d: nat)
    requires IsDigit(c)
    ensures d < 10
  {
    c as int - '0' as int
  }

  function DigitChar(d: nat): (c: char)
    requires d < 10
    ensures IsDigit(c) && DigitValue(c) == d
  {
    (d + '0' as int) as char
  }

  predicate AllDigits(s: string) { forall i :: 0 <= i < |s| ==> IsDigit(s[i]) }

  /** A canonical rendering: non-empty, only digits, no leading zero except "0" itself. */
  predicate IsCanonical(s: string) { |s| > 0 && AllDigits(s) && (s[0] == '0' ==> |s| == 1) }

  /** strconv.Itoa on a non-negative integer. */
  function Itoa(n: nat): (s: string)
    ensures IsCanonical(s)
    ensures s[0] == '0' <==> n == 0
    decreases n
  {
    if n < 10 then [DigitChar(n)] else Itoa(n / 10) + [DigitChar(n % 10)]
  }

  /** The value a string of digits denotes, most significant digit first. */
  function Parse(s: string): nat
    requires AllDigits(s)
    decreases |s|
  {
    if s == [] then 0 else Parse(s[..|s| - 1]) * 10 + DigitValue(s[|s| - 1])
  }

  lemma {:induction false} ParseItoa(n: nat)
    ensures Parse(Itoa(n)) == n
    decreases n
  {
    var s := Itoa(n);
    if n < 10 {
      assert s[..|s| - 1] == [];
    } else {
      assert s[..|s| - 1] == Itoa(n / 10);
      ParseItoa(n / 10);
    }
  }

  lemma {:induction false} ParsePositive(s: string)
    requires |s| > 0 && AllDigits(s) && s[0] != '0'
    ensures Parse(s) > 0
    decreases |s|
  {
    if |s| == 1 {
      assert s[..0] == [];
    } else {
      ParsePositive(s[..|s| - 1]);
    }
  }

  lemma {:induction false} ItoaParse(s: string)
    requires IsCanonical(s)
    ensures Itoa(Parse(s)) == s
    decreases |s|
  {
    var p, c := s[..|s| - 1], s[|s| - 1];
    if |s| == 1 {
      assert p == [];
      assert Itoa(Parse(s)) == [DigitChar(DigitValue(c))];
    } else {
      assert p[0] == s[0];
      ParsePositive(p);
      ItoaParse(p);
      assert Parse(s) / 10 == Parse(p) && Parse(s) % 10 == DigitValue(c);
      assert s == p + [c];
    }
  }

  /** Distinct numbers have distinct renderings. */
  lemma ItoaInjective(a: nat, b: nat)
    ensures Itoa(a) == Itoa(b) <==> a == b
  {
    ParseItoa(a);
    ParseItoa(b);
  }

  /** The strings Itoa produces are exactly the canonical ones. */
  lemma RenderingsAreCanonical(s: string)
    ensures (exists n: nat :: Itoa(n) == s) <==> IsCanonical(s)
  {
    if IsCanonical(s) {
      ItoaParse(s);
    }
  }

  /**
   * Some position k in 1..count renders as `id` exactly when `id` is the
   * canonical rendering of a number in that range: "0", "01", "+1", " 1",
   * "" and numbers past `count` never match.
   */
  lemma PositionMatch(id: string, count: nat)
    ensures (exists k: nat :: 1 <= k <= count && Itoa(k) == id)
        <==> IsCanonical(id) && 1 <= Parse(id) <= count
  {
    if IsCanonical(id) && 1 <= Parse(id) <= count {
      ItoaParse(id);
    }
    if k: nat :| 1 <= k <= count && Itoa(k) == id {
      ParseItoa(k);
    }
  }
}
