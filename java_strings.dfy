/**
 * The few `java.lang.String` / `StringBuilder` operations the modelled code relies on,
 * over strings as sequences of characters, plus the join helpers the statement
 * builders and the CSV serialiser are specified with.
 */
module JavaStrings {
  import opened Wrappers

  /** `pat` occurs in `s` starting at index `i`. */
  ghost predicate OccursAt(s: string, pat: string, i: int) {
    0 <= i && i + |pat| <= |s| && s[i..i + |pat|] == pat
  }

  /**
   * `s.indexOf(pat, from)`: the first occurrence of `pat` at or after `from`, or -1.
   * For an empty `pat` this is `from` itself, as in Java.
   */
  function IndexOf(s: string, pat: string, from: nat): (r: int)
    requires from <= |s|
    ensures r == -1 || (from <= r && OccursAt(s, pat, r))
    ensures r == -1 ==> forall i :: from <= i ==> !OccursAt(s, pat, i)
    ensures r != -1 ==> forall i :: from <= i < r ==> !OccursAt(s, pat, i)
    decreases |s| - from
  {
    if from + |pat| > |s| then -1
    else if s[from..from + |pat|] == pat then from
    else IndexOf(s, pat, from + 1)
  }

  /** No occurrence can start where the first character of `pat` does not appear. */
  lemma {:induction false} IndexOfLeadFree(s: string, pat: string, from: nat)
    requires from <= |s| && |pat| > 0 && pat[0] !in s[from..]
    ensures IndexOf(s, pat, from) == -1
    decreases |s| - from
  {
    if from + |pat| <= |s| {
      assert s[from..from + |pat|][0] == s[from..][0];
      assert s[from + 1..] == s[from..][1..];
      IndexOfLeadFree(s, pat, from + 1);
    }
  }

  /** An occurrence at `k` with the first character of `pat` absent from [from, k) is the one found. */
  lemma IndexOfAt(s: string, pat: string, from: nat, k: nat)
    requires from <= k && |pat| > 0 && OccursAt(s, pat, k) && pat[0] !in s[from..k]
    ensures IndexOf(s, pat, from) == k
  {
    forall i | from <= i < k ensures !OccursAt(s, pat, i) {
      assert s[i] == s[from..k][i - from];
      if i + |pat| <= |s| {
        assert s[i..i + |pat|][0] == s[i];
      }
    }
  }

  /** `s.lastIndexOf(c)`: the last index holding `c`, or -1. */
  function LastIndexOf(s: string, c: char): (r: int)
    ensures -1 <= r < |s|
    ensures r >= 0 ==> s[r] == c && forall j :: r < j < |s| ==> s[j] != c
    ensures r == -1 ==> forall j :: 0 <= j < |s| ==> s[j] != c
  {
    if |s| == 0 then -1
    else if s[|s| - 1] == c then |s| - 1
    else LastIndexOf(s[..|s| - 1], c)
  }

  /**
   * `s.replace(pat, "")`: occurrences of `pat` are removed left to right, never
   * overlapping; an empty `pat` leaves `s` as it is.
   */
  function RemoveAll(s: string, pat: string): (r: string)
    ensures |r| <= |s|
    decreases |s|
  {
    if |pat| == 0 || |s| < |pat| then s
    else if s[..|pat|] == pat then RemoveAll(s[|pat|..], pat)
    else [s[0]] + RemoveAll(s[1..], pat)
  }

  /** Where `pat` does not occur, `replace(pat, "")` changes nothing. */
  lemma {:induction false} RemoveAllAbsent(s: string, pat: string)
    requires forall i :: !OccursAt(s, pat, i)
    ensures RemoveAll(s, pat) == s
    decreases |s|
  {
    if |pat| > 0 && |s| >= |pat| {
      assert !OccursAt(s, pat, 0);
      forall i ensures !OccursAt(s[1..], pat, i) {
        if OccursAt(s[1..], pat, i) {
          assert s[1..][i..i + |pat|] == s[i + 1..i + 1 + |pat|];
          assert OccursAt(s, pat, i + 1);
        }
      }
      RemoveAllAbsent(s[1..], pat);
      assert s == [s[0]] + s[1..];
    }
  }

  /** A string holding no character that could start `pat` is left as it is. */
  lemma RemoveAllLeadFree(s: string, pat: string)
    requires |pat| > 0 && pat[0] !in s
    ensures RemoveAll(s, pat) == s
  {
    forall i ensures !OccursAt(s, pat, i) {
      if 0 <= i && i + |pat| <= |s| {
        assert s[i..i + |pat|][0] == s[i];
      }
    }
    RemoveAllAbsent(s, pat);
  }

  /** A first character that cannot start `pat` is kept, and removal goes on after it. */
  lemma RemoveAllKeepsLead(s: string, pat: string)
    requires |pat| > 0 && |s| >= |pat| && s[0] != pat[0]
    ensures RemoveAll(s, pat) == [s[0]] + RemoveAll(s[1..], pat)
  {
    assert s[..|pat|][0] == s[0];
  }

  /** An occurrence at the front is removed, and removal goes on after it. */
  lemma RemoveAllDropsLead(pat: string, b: string)
    requires |pat| > 0
    ensures RemoveAll(pat + b, pat) == RemoveAll(b, pat)
  {
    var s := pat + b;
    assert s[..|pat|] == pat;
    assert s[|pat|..] == b;
  }

  /**
   * Removal restarts cleanly after an occurrence of `pat` when nothing before it
   * could start an occurrence (the first character of `pat` is not in `a`).
   */
  lemma {:induction false} RemoveAllAfterLeadFree(a: string, pat: string, b: string)
    requires |pat| > 0 && pat[0] !in a
    ensures RemoveAll(a + pat + b, pat) == a + RemoveAll(b, pat)
    decreases |a|
  {
    if |a| == 0 {
      assert a + pat + b == pat + b;
      RemoveAllDropsLead(pat, b);
    } else {
      var s := a + pat + b;
      assert s[0] == a[0];
      RemoveAllKeepsLead(s, pat);
      assert s[1..] == a[1..] + pat + b;
      assert pat[0] !in a[1..] by {
        forall i | 0 <= i < |a[1..]| ensures a[1..][i] != pat[0] { assert a[1..][i] == a[i + 1]; }
      }
      RemoveAllAfterLeadFree(a[1..], pat, b);
      assert a == [a[0]] + a[1..];
    }
  }

  /**
   * `StringBuilder.setLength(n)`: a negative length throws (None); a shorter
   * length truncates; a longer one pads with NUL characters.
   */
  function SetLength(s: string, n: int): (r: Option<string>)
    ensures r.None? <==> n < 0
    ensures 0 <= n <= |s| ==> r == Some(s[..n])
    ensures n > |s| ==> r.Some? && |r.value| == n && r.value[..|s|] == s
  {
    if n < 0 then None
    else if n <= |s| then Some(s[..n])
    else Some(s + seq(n - |s|, _ => '\0'))
  }

  /** The strings of `xs` glued together. */
  function Concat(xs: seq<string>): string {
    if |xs| == 0 then "" else xs[0] + Concat(xs[1..])
  }

  /** The strings of `xs` with `sep` between neighbours (and nowhere else). */
  function Join(xs: seq<string>, sep: string): string {
    if |xs| == 0 then ""
    else if |xs| == 1 then xs[0]
    else Join(xs[..|xs| - 1], sep) + sep + xs[|xs| - 1]
  }

  /** The strings of `xs`, each followed by `sep`: what a builder loop appending `x` then `sep` produces. */
  function Terminated(xs: seq<string>, sep: string): string {
    if |xs| == 0 then "" else Terminated(xs[..|xs| - 1], sep) + xs[|xs| - 1] + sep
  }

  /** Appending one more item to a builder. */
  lemma TerminatedSnoc(xs: seq<string>, x: string, sep: string)
    ensures Terminated(xs + [x], sep) == Terminated(xs, sep) + x + sep
  {
    assert (xs + [x])[..|xs|] == xs;
  }

  /** Chopping the last separator of a non-empty builder leaves the joined list. */
  lemma {:induction false} TerminatedIsJoinPlusSep(xs: seq<string>, sep: string)
    requires |xs| >= 1
    ensures Terminated(xs, sep) == Join(xs, sep) + sep
    decreases |xs|
  {
    if |xs| > 1 {
      TerminatedIsJoinPlusSep(xs[..|xs| - 1], sep);
    }
  }

  /** Joining a list with one more item. */
  lemma {:induction false} JoinSnoc(xs: seq<string>, x: string, sep: string)
    ensures Join(xs + [x], sep) == Terminated(xs, sep) + x
  {
    var ys := xs + [x];
    if |xs| == 0 {
      assert ys == [x];
    } else {
      assert ys[..|ys| - 1] == xs && ys[|ys| - 1] == x;
      assert Join(ys, sep) == Join(xs, sep) + sep + x;
      TerminatedIsJoinPlusSep(xs, sep);
    }
  }

  /** How often `c` occurs in `s`. */
  function CountChar(s: string, c: char): nat {
    if |s| == 0 then 0
    else CountChar(s[..|s| - 1], c) + (if s[|s| - 1] == c then 1 else 0)
  }

  lemma {:induction false} CountCharAppend(a: string, b: string, c: char)
    ensures CountChar(a + b, c) == CountChar(a, c) + CountChar(b, c)
    decreases |b|
  {
    if |b| > 0 {
      var ab := a + b;
      assert ab[..|ab| - 1] == a + b[..|b| - 1];
      assert ab[|ab| - 1] == b[|b| - 1];
      CountCharAppend(a, b[..|b| - 1], c);
    } else {
      assert a + b == a;
    }
  }

  lemma {:induction false} CountCharAbsent(s: string, c: char)
    requires c !in s
    ensures CountChar(s, c) == 0
    decreases |s|
  {
    if |s| > 0 {
      assert s[..|s| - 1] <= s;
      CountCharAbsent(s[..|s| - 1], c);
    }
  }

  /** The converse: a string where `c` is counted zero times does not hold `c`. */
  lemma {:induction false} CountCharZero(s: string, c: char)
    requires CountChar(s, c) == 0
    ensures c !in s
    decreases |s|
  {
    if |s| > 0 {
      CountCharZero(s[..|s| - 1], c);
      assert s == s[..|s| - 1] + [s[|s| - 1]];
    }
  }

  /** The occurrences of `c` in all strings of `xs` together. */
  function SumCount(xs: seq<string>, c: char): nat {
    if |xs| == 0 then 0 else SumCount(xs[..|xs| - 1], c) + CountChar(xs[|xs| - 1], c)
  }

  /** Joining with a separator free of `c` adds no occurrence of `c`. */
  lemma {:induction false} CountCharJoin(xs: seq<string>, sep: string, c: char)
    requires c !in sep
    ensures CountChar(Join(xs, sep), c) == SumCount(xs, c)
    decreases |xs|
  {
    if |xs| == 1 {
      assert xs[..0] == [];
    } else if |xs| > 1 {
      var init := xs[..|xs| - 1];
      CountCharJoin(init, sep, c);
      CountCharAppend(Join(init, sep), sep, c);
      CountCharAppend(Join(init, sep) + sep, xs[|xs| - 1], c);
      CountCharAbsent(sep, c);
    }
  }

  /** Strings none of which holds `c` hold no `c` together. */
  lemma {:induction false} SumCountAbsent(xs: seq<string>, c: char)
    requires forall i :: 0 <= i < |xs| ==> c !in xs[i]
    ensures SumCount(xs, c) == 0
    decreases |xs|
  {
    if |xs| > 0 {
      SumCountAbsent(xs[..|xs| - 1], c);
      CountCharAbsent(xs[|xs| - 1], c);
    }
  }

  /** `n` copies of `s`. */
  function Repeat(s: string, n: nat): (r: seq<string>)
    ensures |r| == n && forall i :: 0 <= i < n ==> r[i] == s
  {
    if n == 0 then [] else Repeat(s, n - 1) + [s]
  }

  lemma {:induction false} SumCountRepeat(s: string, n: nat, c: char)
    ensures SumCount(Repeat(s, n), c) == n * CountChar(s, c)
    decreases n
  {
    if n > 0 {
      assert Repeat(s, n)[..n - 1] == Repeat(s, n - 1);
      SumCountRepeat(s, n - 1, c);
    }
  }

  /** The decimal digit character for `d`. */
  function DigitChar(d: nat): (c: char)
    requires d < 10
    ensures '0' <= c <= '9'
  {
    ('0' as int + d) as char
  }

  predicate IsDigits(s: string) {
    forall i :: 0 <= i < |s| ==> '0' <= s[i] <= '9'
  }

  /** `String.valueOf(n)` for a non-negative `n`: decimal, no sign, no leading zero. */
  function NatToString(n: nat): (s: string)
    ensures |s| >= 1 && IsDigits(s)
    ensures |s| > 1 ==> s[0] != '0'
    decreases n
  {
    if n < 10 then [DigitChar(n)] else NatToString(n / 10) + [DigitChar(n % 10)]
  }

  /** Reading a string of decimal digits back as a number. */
  function ParseNat(s: string): nat
    requires IsDigits(s)
  {
    if |s| == 0 then 0 else ParseNat(s[..|s| - 1]) * 10 + (s[|s| - 1] as int - '0' as int)
  }

  /** `String.valueOf` loses nothing: the decimal text reads back as the number. */
  lemma {:induction false} ParseNatToString(n: nat)
    ensures ParseNat(NatToString(n)) == n
    decreases n
  {
    var s := NatToString(n);
    if n >= 10 {
      assert s[..|s| - 1] == NatToString(n / 10);
      ParseNatToString(n / 10);
    }
  }

  /** Different numbers have different decimal texts. */
  lemma NatToStringInjective(m: nat, n: nat)
    requires m != n
    ensures NatToString(m) != NatToString(n)
  {
    ParseNatToString(m);
    ParseNatToString(n);
  }

  /**
   * `Character.toUpperCase` for the characters whose upper case is a single
   * ASCII letter: a-z, LATIN SMALL LETTER LONG S (to 'S') and LATIN SMALL
   * LETTER DOTLESS I (to 'I'); every other character is returned unchanged.
   */
  function UpperChar(c: char): char {
    if 'a' <= c <= 'z' then (c as int - 32) as char
    else if c == '\U{017F}' then 'S'
    else if c == '\U{0131}' then 'I'
    else c
  }

  /** `s.toUpperCase()`, character by character (see UpperChar). */
  function ToUpper(s: string): (r: string)
    ensures |r| == |s| && forall i :: 0 <= i < |s| ==> r[i] == UpperChar(s[i])
  {
    seq(|s|, i requires 0 <= i < |s| => UpperChar(s[i]))
  }
}
