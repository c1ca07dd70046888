/**
 * String operations of the Python standard library that both core files
 * rely on: literal replace-all (`str.replace`, and `re.sub` with a pattern
 * that holds no metacharacter), `str(int)` for non-negative integers, and
 * `str.join`.
 */
module Text {

  /** Every occurrence of `pat` in `s`, scanned left to right without overlap,
      replaced by `rep`. An empty pattern matches before every character and
      at the end, as in Python. */
  function ReplaceAll(s: string, pat: string, rep: string): (r: string)
    ensures forall c :: c in r ==> c in s || c in rep
    ensures |rep| <= |pat| ==> |r| <= |s|
    ensures |pat| == 1 && pat[0] !in rep ==> pat[0] !in r
    decreases |s|
  {
    if pat == [] then
      if s == [] then rep else rep + [s[0]] + ReplaceAll(s[1..], pat, rep)
    else if |s| < |pat| then s
    else if s[..|pat|] == pat then rep + ReplaceAll(s[|pat|..], pat, rep)
    else [s[0]] + ReplaceAll(s[1..], pat, rep)
  }

  /** Some character of `pat` does not occur in `s`, so `pat` cannot occur in `s`. */
  predicate Misses(pat: string, s: string) {
    exists i :: 0 <= i < |pat| && pat[i] !in s
  }

  lemma {:induction false} ReplaceAllMissing(s: string, pat: string, rep: string)
    requires Misses(pat, s)
    ensures ReplaceAll(s, pat, rep) == s
    decreases |s|
  {
    var i :| 0 <= i < |pat| && pat[i] !in s;
    if |s| >= |pat| {
      assert s[..|pat|][i] == s[i] && s[i] in s;
      assert Misses(pat, s[1..]) by {
        assert pat[i] !in s[1..];
      }
      ReplaceAllMissing(s[1..], pat, rep);
      assert [s[0]] + s[1..] == s;
    }
  }

  /** Every double quote is immediately preceded by a backslash. */
  predicate QuotesEscaped(s: string) {
    forall i :: 0 <= i < |s| && s[i] == '"' ==> 0 < i && s[i - 1] == '\\'
  }

  lemma QuotesEscapedConcat(a: string, b: string)
    requires QuotesEscaped(a) && QuotesEscaped(b)
    ensures QuotesEscaped(a + b)
  {
    var ab := a + b;
    forall i | 0 <= i < |ab| && ab[i] == '"'
      ensures 0 < i && ab[i - 1] == '\\'
    {
      if i >= |a| {
        assert b[i - |a|] == '"';
      }
    }
  }

  /** Escaping every straight double quote (`s.replace('"', '\\"')`) leaves none bare. */
  lemma {:induction false} EscapingQuotesEscapes(s: string)
    ensures QuotesEscaped(ReplaceAll(s, "\"", "\\\""))
    decreases |s|
  {
    if |s| >= 1 {
      EscapingQuotesEscapes(s[1..]);
      var tail := ReplaceAll(s[1..], "\"", "\\\"");
      if s[..1] == "\"" {
        QuotesEscapedConcat("\\\"", tail);
      } else {
        assert s[0] != '"' by { assert s[..1] == [s[0]]; }
        QuotesEscapedConcat([s[0]], tail);
      }
    }
  }

  /** A suffix that does not start with a quote keeps every quote escaped. */
  lemma EscapedSuffix(s: string, k: nat)
    requires QuotesEscaped(s)
    requires k <= |s| && (k < |s| ==> s[k] != '"')
    ensures QuotesEscaped(s[k..])
  {
    var t := s[k..];
    forall i | 0 <= i < |t| && t[i] == '"'
      ensures 0 < i && t[i - 1] == '\\'
    {
      assert s[k + i] == '"';
    }
  }

  /** A replacement whose pattern touches neither quotes nor backslashes and whose
      replacement text is itself escaped keeps every quote escaped. */
  lemma {:induction false} ReplaceAllKeepsQuotesEscaped(s: string, pat: string, rep: string)
    requires |pat| > 0 && '"' !in pat && '\\' !in pat
    requires QuotesEscaped(rep)
    requires QuotesEscaped(s)
    ensures QuotesEscaped(ReplaceAll(s, pat, rep))
    decreases |s|
  {
    if |s| < |pat| {
    } else if s[..|pat|] == pat {
      assert |s| > |pat| ==> s[|pat|] != '"' by {
        assert s[|pat| - 1] == pat[|pat| - 1];
      }
      EscapedSuffix(s, |pat|);
      ReplaceAllKeepsQuotesEscaped(s[|pat|..], pat, rep);
      QuotesEscapedConcat(rep, ReplaceAll(s[|pat|..], pat, rep));
    } else if |s| >= 2 && s[1] == '"' {
      KeepsEscapedPair(s, pat, rep);
    } else {
      EscapedSuffix(s, 1);
      ReplaceAllKeepsQuotesEscaped(s[1..], pat, rep);
      QuotesEscapedConcat([s[0]], ReplaceAll(s[1..], pat, rep));
    }
  }

  /** The step of ReplaceAllKeepsQuotesEscaped where `s` starts with an escaped
      pair `\"`, which passes through unchanged. */
  lemma {:induction false} KeepsEscapedPair(s: string, pat: string, rep: string)
    requires |pat| > 0 && '"' !in pat && '\\' !in pat
    requires QuotesEscaped(rep)
    requires QuotesEscaped(s)
    requires |s| >= 2 && s[1] == '"'
    ensures QuotesEscaped(ReplaceAll(s, pat, rep))
    decreases |s|, 0
  {
    assert s[0] == '\\';
    assert |s| >= |pat| ==> s[..|pat|] != pat by { assert s[0] != pat[0]; }
    var t1 := s[1..];
    assert |t1| < |pat| || t1[..|pat|] != pat by {
      assert t1[0] == '"';
    }
    assert t1[1..] == s[2..];
    EscapedSuffix(s, 2);
    if |t1| >= |pat| {
      ReplaceAllKeepsQuotesEscaped(s[2..], pat, rep);
      QuotesEscapedConcat([s[0], '"'], ReplaceAll(s[2..], pat, rep));
    }
  }

  /** A single-character pattern: every occurrence of `from` becomes `to`, and
      nothing else moves. */
  lemma {:induction false} ReplaceCharPointwise(s: string, from: char, to: char)
    ensures |ReplaceAll(s, [from], [to])| == |s|
    ensures forall i :: 0 <= i < |s| ==>
      ReplaceAll(s, [from], [to])[i] == (if s[i] == from then to else s[i])
    decreases |s|
  {
    if |s| >= 1 {
      ReplaceCharPointwise(s[1..], from, to);
      assert s[..1] == [s[0]];
    }
  }

  function DigitChar(d: nat): char
    requires d < 10
  {
    "0123456789"[d]
  }

  predicate IsDigits(s: string) {
    forall i :: 0 <= i < |s| ==> '0' <= s[i] <= '9'
  }

  /** The value of a string of decimal digits, most significant first. */
  function DigitsValue(s: string): nat
    requires IsDigits(s)
  {
    if s == [] then 0
    else DigitsValue(s[..|s| - 1]) * 10 + (s[|s| - 1] as int - '0' as int)
  }

  /** `str(n)` for a non-negative integer: canonical decimal digits whose value is `n`. */
  function NatToString(n: nat): (s: string)
    ensures |s| > 0 && IsDigits(s) && DigitsValue(s) == n
    ensures |s| > 1 ==> s[0] != '0'
  {
    if n < 10 then [DigitChar(n)]
    else
      var prefix := NatToString(n / 10);
      var s := prefix + [DigitChar(n % 10)];
      assert s[..|s| - 1] == prefix;
      s
  }

  /** `sep.join(parts)`. */
  function Join(parts: seq<string>, sep: string): string {
    if parts == [] then ""
    else if |parts| == 1 then parts[0]
    else Join(parts[..|parts| - 1], sep) + sep + parts[|parts| - 1]
  }

  /** Joining one more part appends the separator and the part. */
  lemma JoinSnoc(parts: seq<string>, part: string, sep: string)
    requires parts != []
    ensures Join(parts + [part], sep) == Join(parts, sep) + sep + part
  {
    assert (parts + [part])[..|parts|] == parts;
  }
}
