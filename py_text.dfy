/**
 * The Python string operations that read_collection_logs relies on:
 * `marker in line`, `line.split(marker)[0]`, `text.split()`, `int(token)`,
 * and `str(n)` (used by the CSV writer for the counts).
 */
module PyText {
  import opened Outcomes

  // ----- str.split() with no separator -----

  /** The characters for which Python's str.isspace() holds. */
  predicate IsSpace(c: char) {
    ('\t' <= c <= '\r') || ('\U{1C}' <= c <= ' ') || c == '\U{85}' || c == '\U{A0}'
    || c == '\U{1680}' || ('\U{2000}' <= c <= '\U{200A}') || c == '\U{2028}'
    || c == '\U{2029}' || c == '\U{202F}' || c == '\U{205F}' || c == '\U{3000}'
  }

  predicate NoSpace(s: string) {
    forall i :: 0 <= i < |s| ==> !IsSpace(s[i])
  }

  predicate AllSpace(s: string) {
    forall i :: 0 <= i < |s| ==> IsSpace(s[i])
  }

  /** Where the word ending at `e` begins: `s[WordStart(s, e)..e]` is a maximal run of non-space characters. */
  function WordStart(s: string, e: nat): (k: nat)
    requires 0 < e <= |s| && !IsSpace(s[e - 1])
    ensures k < e
    decreases e
  {
    if e == 1 || IsSpace(s[e - 2]) then e - 1 else WordStart(s, e - 1)
  }

  /** The word runs from WordStart(s, e) to `e`, and a space (or the start) precedes it. */
  lemma {:induction false} WordStartSpec(s: string, e: nat)
    requires 0 < e <= |s| && !IsSpace(s[e - 1])
    ensures forall j :: WordStart(s, e) <= j < e ==> !IsSpace(s[j])
    ensures WordStart(s, e) == 0 || IsSpace(s[WordStart(s, e) - 1])
    decreases e
  {
    if !(e == 1 || IsSpace(s[e - 2])) {
      WordStartSpec(s, e - 1);
    }
  }

  /** Characters after `e` do not move the start of the word ending at `e`. */
  lemma {:induction false} WordStartPrefix(s: string, m: nat, e: nat)
    requires 0 < e <= m <= |s| && !IsSpace(s[e - 1])
    ensures WordStart(s[..m], e) == WordStart(s, e)
    decreases e
  {
    if !(e == 1 || IsSpace(s[e - 2])) {
      WordStartPrefix(s, m, e - 1);
    }
  }

  /** `s.split()`: the maximal runs of non-space characters of `s`, in order. */
  function Words(s: string): seq<string>
    decreases |s|
  {
    if s == [] then []
    else if IsSpace(s[|s| - 1]) then Words(s[..|s| - 1])
    else
      var k := WordStart(s, |s|);
      Words(s[..k]) + [s[k..]]
  }

  /** Every word is non-empty and free of whitespace, and there are none exactly when `s` is all whitespace. */
  lemma {:induction false} WordsSpec(s: string)
    ensures forall i :: 0 <= i < |Words(s)| ==> Words(s)[i] != [] && NoSpace(Words(s)[i])
    ensures Words(s) == [] <==> AllSpace(s)
    decreases |s|
  {
    if s != [] {
      var init := s[..|s| - 1];
      if IsSpace(s[|s| - 1]) {
        WordsSpec(init);
      } else {
        var k := WordStart(s, |s|);
        WordStartSpec(s, |s|);
        WordsSpec(s[..k]);
      }
    }
  }

  /** Appending whitespace to a text does not change its words. */
  lemma WordsTrailingSpace(s: string, c: char)
    requires IsSpace(c)
    ensures Words(s + [c]) == Words(s)
  {
    assert (s + [c])[..|s|] == s;
  }

  /** A word written after a space (or at the very start) becomes the last word. */
  lemma WordsAppendWord(lead: string, w: string)
    requires lead == [] || IsSpace(lead[|lead| - 1])
    requires w != [] && NoSpace(w)
    ensures Words(lead + w) == Words(lead) + [w]
  {
    var s := lead + w;
    var k := WordStart(s, |s|);
    WordStartSpec(s, |s|);
    if lead != [] {
      assert s[|lead| - 1] == lead[|lead| - 1];
    }
    assert forall j :: |lead| <= j < |s| ==> s[j] == w[j - |lead|];
    assert k == |lead|;
    assert s[..k] == lead && s[k..] == w;
  }

  /** Where the last word of `s[..n]` ends: just past its last non-space character, or 0 when there is none. */
  function WordEnd(s: string, n: nat): (e: nat)
    requires n <= |s|
    ensures e <= n && (e > 0 ==> !IsSpace(s[e - 1]))
    decreases n
  {
    if n == 0 || !IsSpace(s[n - 1]) then n else WordEnd(s, n - 1)
  }

  /** `s[..n].split()[-1]` found in place: WordEnd and WordStart delimit the last word of the split. */
  lemma {:induction false} LastWord(s: string, n: nat)
    requires n <= |s|
    ensures Words(s[..n]) == [] <==> WordEnd(s, n) == 0
    ensures WordEnd(s, n) > 0 ==>
      Words(s[..n])[|Words(s[..n])| - 1] == s[WordStart(s, WordEnd(s, n))..WordEnd(s, n)]
    decreases n
  {
    if n > 0 {
      var p := s[..n];
      if IsSpace(s[n - 1]) {
        assert p[..n - 1] == s[..n - 1];
        assert Words(p) == Words(s[..n - 1]);
        LastWord(s, n - 1);
      } else {
        WordStartPrefix(s, n, n);
        var k := WordStart(s, n);
        assert Words(p) == Words(p[..k]) + [p[k..]];
        assert p[k..] == s[k..n];
      }
    }
  }

  // ----- `pat in s` and `s.split(pat)[0]` -----

  predicate OccursAt(s: string, pat: string, k: nat) {
    k + |pat| <= |s| && s[k..k + |pat|] == pat
  }

  /** The first `m` characters of `pat` are written in `s` from position `k` on. */
  predicate MatchesAt(s: string, pat: string, k: nat, m: nat)
    requires m <= |pat| && k + m <= |s|
    decreases m
  {
    m == 0 || (s[k + m - 1] == pat[m - 1] && MatchesAt(s, pat, k, m - 1))
  }

  lemma {:induction false} MatchesAtIff(s: string, pat: string, k: nat, m: nat)
    requires m <= |pat| && k + m <= |s|
    ensures MatchesAt(s, pat, k, m) <==> s[k..k + m] == pat[..m]
    decreases m
  {
    if m > 0 {
      MatchesAtIff(s, pat, k, m - 1);
      if s[k..k + m] == pat[..m] {
        assert s[k..k + m - 1] == s[k..k + m][..m - 1];
        assert pat[..m - 1] == pat[..m][..m - 1];
        assert s[k + m - 1] == s[k..k + m][m - 1];
      }
    }
  }

  /** The first occurrence of `pat` in `s` at or after `from`, if any. */
  function IndexFrom(s: string, pat: string, from: nat): (r: Option<nat>)
    ensures r.Some? ==> from <= r.value && r.value + |pat| <= |s|
    decreases |s| - from
  {
    if |s| < from + |pat| then None
    else if MatchesAt(s, pat, from, |pat|) then Some(from)
    else IndexFrom(s, pat, from + 1)
  }

  /** IndexFrom finds the first occurrence at or after `from`, and None means there is none. */
  lemma {:induction false} IndexFromSpec(s: string, pat: string, from: nat)
    ensures IndexFrom(s, pat, from).Some? ==> OccursAt(s, pat, IndexFrom(s, pat, from).value)
    ensures IndexFrom(s, pat, from).Some? ==>
      forall k :: from <= k < IndexFrom(s, pat, from).value ==> !OccursAt(s, pat, k)
    ensures IndexFrom(s, pat, from).None? ==> forall k :: from <= k ==> !OccursAt(s, pat, k)
    decreases |s| - from
  {
    if |s| >= from + |pat| {
      MatchesAtIff(s, pat, from, |pat|);
      assert pat[..|pat|] == pat;
      if !MatchesAt(s, pat, from, |pat|) {
        IndexFromSpec(s, pat, from + 1);
      }
    }
  }

  /** The first occurrence of `pat` in `s`: `s.split(pat)[0]` is `s[..IndexOf(s, pat).value]`. */
  function IndexOf(s: string, pat: string): Option<nat> {
    IndexFrom(s, pat, 0)
  }

  /** Python's `pat in s`. */
  predicate Contains(s: string, pat: string) {
    IndexOf(s, pat).Some?
  }

  /** `pat in s` holds exactly when `pat` occurs somewhere in `s`. */
  lemma ContainsIff(s: string, pat: string)
    ensures Contains(s, pat) <==> exists k: nat :: OccursAt(s, pat, k)
  {
    IndexFromSpec(s, pat, 0);
  }

  /** An occurrence at `k` preceded by no possible start of `pat` is the first one. */
  lemma FirstOccurrence(s: string, pat: string, k: nat)
    requires pat != [] && OccursAt(s, pat, k)
    requires forall j :: 0 <= j < k ==> s[j] != pat[0]
    ensures IndexOf(s, pat) == Some(k)
  {
    IndexFromSpec(s, pat, 0);
    var r := IndexOf(s, pat);
    assert s[r.value..r.value + |pat|][0] == pat[0];
    assert r.value == k;
  }

  // ----- int(token) -----

  predicate IsDigit(c: char) {
    '0' <= c <= '9'
  }

  /**
   * `s[lo..hi]` is what int() accepts after an optional sign: ASCII digits, with
   * single underscores allowed between two digits ("1_000"); the grammar
   * digit ('_'? digit)*, read from the right.
   */
  predicate DigitRun(s: string, lo: nat, hi: nat)
    requires lo <= hi <= |s|
    decreases hi - lo
  {
    lo < hi && IsDigit(s[hi - 1]) &&
    (hi - 1 == lo || DigitRun(s, lo, hi - 1) ||
     (hi - 2 > lo && s[hi - 2] == '_' && DigitRun(s, lo, hi - 2)))
  }

  /** Every character of a digit run is a digit or an underscore. */
  lemma {:induction false} DigitRunChars(s: string, lo: nat, hi: nat)
    requires lo <= hi <= |s| && DigitRun(s, lo, hi)
    ensures forall i :: lo <= i < hi ==> IsDigit(s[i]) || s[i] == '_'
    decreases hi - lo
  {
    if hi - 1 > lo {
      if DigitRun(s, lo, hi - 1) {
        DigitRunChars(s, lo, hi - 1);
      } else {
        DigitRunChars(s, lo, hi - 2);
      }
    }
  }

  /** The number the digits of `s[lo..hi]` spell, underscores skipped. */
  function RunValue(s: string, lo: nat, hi: nat): nat
    requires lo <= hi <= |s|
    decreases hi - lo
  {
    if lo == hi then 0
    else if IsDigit(s[hi - 1]) then RunValue(s, lo, hi - 1) * 10 + (s[hi - 1] as int - '0' as int)
    else RunValue(s, lo, hi - 1)
  }

  /** Two spans holding the same characters are the same digit run with the same value. */
  lemma {:induction false} RunsAgree(s: string, lo: nat, hi: nat, t: string, lo2: nat)
    requires lo <= hi <= |s| && lo2 + (hi - lo) <= |t|
    requires forall i :: lo <= i < hi ==> s[i] == t[lo2 + (i - lo)]
    ensures DigitRun(s, lo, hi) == DigitRun(t, lo2, lo2 + (hi - lo))
    ensures RunValue(s, lo, hi) == RunValue(t, lo2, lo2 + (hi - lo))
    decreases hi - lo
  {
    if lo < hi {
      assert s[hi - 1] == t[lo2 + (hi - lo) - 1];
      RunsAgree(s, lo, hi - 1, t, lo2);
      if hi - 2 >= lo {
        assert s[hi - 2] == t[lo2 + (hi - lo) - 2];
        RunsAgree(s, lo, hi - 2, t, lo2);
      }
    }
  }

  /** int() on the characters `s[lo..hi]`; None where it raises ValueError. */
  function ParseSpan(s: string, lo: nat, hi: nat): Option<int>
    requires lo <= hi <= |s|
  {
    if lo < hi && (s[lo] == '-' || s[lo] == '+') then
      if DigitRun(s, lo + 1, hi) then
        var magnitude: int := RunValue(s, lo + 1, hi);
        Some(if s[lo] == '-' then -magnitude else magnitude)
      else None
    else if DigitRun(s, lo, hi) then Some(RunValue(s, lo, hi))
    else None
  }

  /** Python's int(token) on a token holding no whitespace. */
  function ParseInt(s: string): Option<int> {
    ParseSpan(s, 0, |s|)
  }

  /** Parsing a span in place is parsing the token cut out of it. */
  lemma ParseSpanSlice(s: string, lo: nat, hi: nat)
    requires lo <= hi <= |s|
    ensures ParseSpan(s, lo, hi) == ParseInt(s[lo..hi])
  {
    var t := s[lo..hi];
    RunsAgree(s, lo, hi, t, 0);
    if lo < hi {
      assert t[0] == s[lo];
      RunsAgree(s, lo + 1, hi, t, 1);
    }
  }

  // ----- str(n) -----

  function DigitChar(d: nat): (c: char)
    requires d < 10
    ensures IsDigit(c) && c as int - '0' as int == d
  {
    ('0' as int + d) as char
  }

  /** The decimal numeral of `n`, without leading zeros. */
  function ShowNat(n: nat): (s: string)
    ensures s != [] && forall i :: 0 <= i < |s| ==> IsDigit(s[i])
    ensures |s| > 1 ==> s[0] != '0'
  {
    if n < 10 then [DigitChar(n)] else ShowNat(n / 10) + [DigitChar(n % 10)]
  }

  /** Python's str(n) for an int: a minus sign for negatives, then the numeral. */
  function ShowInt(n: int): (s: string)
    ensures s != [] && NoSpace(s)
    ensures forall i :: 0 <= i < |s| ==> IsDigit(s[i]) || (i == 0 && s[i] == '-' && n < 0)
  {
    if n < 0 then "-" + ShowNat(-n) else ShowNat(n)
  }

  /** The numeral of `n` is a digit run whose value is `n`. */
  lemma {:induction false} ShowNatIsRun(n: nat)
    ensures DigitRun(ShowNat(n), 0, |ShowNat(n)|)
    ensures RunValue(ShowNat(n), 0, |ShowNat(n)|) == n
  {
    var s := ShowNat(n);
    if n >= 10 {
      var p := ShowNat(n / 10);
      ShowNatIsRun(n / 10);
      assert s == p + [DigitChar(n % 10)];
      RunsAgree(s, 0, |p|, p, 0);
    }
  }

  /** int(str(n)) == n: every count the report writes reads back as itself. */
  lemma ParseShowInt(n: int)
    ensures ParseInt(ShowInt(n)) == Some(n)
  {
    var s := ShowInt(n);
    if n < 0 {
      var p := ShowNat(-n);
      ShowNatIsRun(-n);
      assert s == "-" + p;
      RunsAgree(s, 1, |s|, p, 0);
    } else {
      ShowNatIsRun(n);
    }
  }

  /** int() rejects a token holding a character that is no digit, sign or underscore. */
  lemma ParseIntRejectsOther(s: string, i: nat)
    requires i < |s| && !IsDigit(s[i]) && s[i] != '_' && s[i] != '-' && s[i] != '+'
    ensures ParseInt(s) == None
  {
    if s[0] == '-' || s[0] == '+' {
      if DigitRun(s, 1, |s|) {
        DigitRunChars(s, 1, |s|);
      }
    } else if DigitRun(s, 0, |s|) {
      DigitRunChars(s, 0, |s|);
    }
  }
}
