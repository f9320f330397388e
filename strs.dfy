/**
 * The few Python `str` operations the scripts use on file names, written out:
 * `startswith`/`endswith`, `in`, `replace`, `split`, decimal formatting with and
 * without zero padding, and `os.path.basename` on Windows paths.
 */
module Strs {

  predicate IsDigit(ch: char)
  {
    '0' <= ch <= '9'
  }

  function DigitValue(ch: char): nat
    requires IsDigit(ch)
  {
    (ch - '0') as nat
  }

  function DigitChar(d: nat): (ch: char)
    requires d < 10
    ensures IsDigit(ch) && DigitValue(ch) == d
  {
    ('0' as int + d) as char
  }

  predicate AllDigits(s: string)
  {
    forall k :: 0 <= k < |s| ==> IsDigit(s[k])
  }

  /** `s.endswith(suffix)` */
  predicate EndsWith(s: string, suffix: string)
  {
    |suffix| <= |s| && s[|s| - |suffix|..] == suffix
  }

  /** `s[i:].startswith(p)`, i.e. `p` occurs in `s` at position `i`. */
  predicate OccursAt(s: string, i: nat, p: string)
  {
    i + |p| <= |s| && s[i..i + |p|] == p
  }

  /** `sub in s` */
  predicate Contains(s: string, sub: string)
  {
    exists i: nat | i <= |s| :: OccursAt(s, i, sub)
  }

  /**
   * `s.replace(pat, rep)` for a non-empty `pat`: a left-to-right scan that replaces
   * each occurrence and resumes after it, so occurrences never overlap.
   */
  function ReplaceAll(s: string, pat: string, rep: string): string
    requires |pat| > 0
    decreases |s|
  {
    if |s| < |pat| then s
    else if s[..|pat|] == pat then rep + ReplaceAll(s[|pat|..], pat, rep)
    else [s[0]] + ReplaceAll(s[1..], pat, rep)
  }

  /** When `pat` does not occur in `s`, replacing it changes nothing. */
  lemma {:induction false} ReplaceAllAbsent(s: string, pat: string, rep: string)
    requires |pat| > 0
    requires forall i: nat :: i <= |s| ==> !OccursAt(s, i, pat)
    ensures ReplaceAll(s, pat, rep) == s
    decreases |s|
  {
    if |s| >= |pat| {
      assert !OccursAt(s, 0, pat);
      forall i: nat | i <= |s[1..]| ensures !OccursAt(s[1..], i, pat) {
        OccursAtShift(s, i, pat);
      }
      ReplaceAllAbsent(s[1..], pat, rep);
    }
  }

  /** Dropping the first character moves every occurrence one place to the left. */
  lemma OccursAtShift(s: string, i: nat, pat: string)
    requires |s| > 0
    ensures OccursAt(s[1..], i, pat) <==> OccursAt(s, i + 1, pat)
  {
    if i + |pat| <= |s[1..]| {
      assert s[1..][i..i + |pat|] == s[i + 1..i + 1 + |pat|];
    }
  }

  /** A prefix in which no occurrence of `pat` starts is copied unchanged. */
  lemma {:induction false} ReplaceAllKeepsPrefix(a: string, b: string, pat: string, rep: string)
    requires |pat| > 0
    requires forall i: nat :: i < |a| ==> !OccursAt(a + b, i, pat)
    ensures ReplaceAll(a + b, pat, rep) == a + ReplaceAll(b, pat, rep)
    decreases |a|
  {
    if |a| > 0 {
      var s := a + b;
      if |s| >= |pat| {
        assert !OccursAt(s, 0, pat);
        assert s[..|pat|] != pat;
        assert s[1..] == a[1..] + b;
        forall i: nat | i < |a[1..]| ensures !OccursAt(a[1..] + b, i, pat) {
          OccursAtShift(s, i, pat);
        }
        ReplaceAllKeepsPrefix(a[1..], b, pat, rep);
        assert ReplaceAll(s, pat, rep) == [s[0]] + ReplaceAll(a[1..] + b, pat, rep);
        assert s[0] == a[0];
        assert a == [a[0]] + a[1..];
        assert a + ReplaceAll(b, pat, rep) == [a[0]] + (a[1..] + ReplaceAll(b, pat, rep));
      } else {
        assert ReplaceAll(s, pat, rep) == s;
        assert ReplaceAll(b, pat, rep) == b;
      }
    } else {
      assert a + b == b;
    }
  }

  /** An occurrence at the very start is replaced and the scan resumes after it. */
  lemma ReplaceAllLeading(pat: string, rest: string, rep: string)
    requires |pat| > 0
    ensures ReplaceAll(pat + rest, pat, rep) == rep + ReplaceAll(rest, pat, rep)
  {
    assert (pat + rest)[..|pat|] == pat;
    assert (pat + rest)[|pat|..] == rest;
  }

  /**
   * Removing a leading `pat` from a text in which the first character of `pat`
   * never occurs leaves exactly that text.
   */
  lemma ReplaceAllStripsLeading(pat: string, s: string)
    requires |pat| > 0
    requires forall k :: 0 <= k < |s| ==> s[k] != pat[0]
    ensures ReplaceAll(pat + s, pat, "") == s
  {
    ReplaceAllLeading(pat, s, "");
    forall i: nat | i <= |s| ensures !OccursAt(s, i, pat) {
      if i + |pat| <= |s| {
        assert s[i..i + |pat|][0] == s[i];
      }
    }
    ReplaceAllAbsent(s, pat, "");
  }

  /** `s.split(sep)`: the pieces between consecutive separators, at least one piece. */
  function Split(s: string, sep: char): (parts: seq<string>)
    ensures |parts| >= 1
    decreases |s|
  {
    if |s| == 0 then [""]
    else
      var rest := Split(s[1..], sep);
      if s[0] == sep then [""] + rest
      else [[s[0]] + rest[0]] + rest[1..]
  }

  /** `sep.join(parts)` */
  function Join(parts: seq<string>, sep: char): string
    requires |parts| >= 1
    decreases |parts|
  {
    if |parts| == 1 then parts[0] else parts[0] + [sep] + Join(parts[1..], sep)
  }

  /** Splitting and joining again gives the original text back, and no piece holds the separator. */
  lemma {:induction false} SplitJoin(s: string, sep: char)
    ensures Join(Split(s, sep), sep) == s
    ensures forall k :: 0 <= k < |Split(s, sep)| ==> sep !in Split(s, sep)[k]
    decreases |s|
  {
    if |s| > 0 {
      var rest := Split(s[1..], sep);
      SplitJoin(s[1..], sep);
      if s[0] == sep {
        assert Split(s, sep) == [""] + rest;
        assert Join([""] + rest, sep) == "" + [sep] + Join(rest, sep);
      } else {
        var parts := Split(s, sep);
        assert parts == [[s[0]] + rest[0]] + rest[1..];
        if |rest| == 1 {
          assert Join(parts, sep) == [s[0]] + rest[0];
        } else {
          assert parts[1..] == rest[1..];
          assert Join(rest, sep) == rest[0] + [sep] + Join(rest[1..], sep);
        }
        forall k | 0 <= k < |parts| ensures sep !in parts[k] {
          if k > 0 {
            assert parts[k] == rest[k];
          }
        }
      }
    }
  }

  /** A text containing the separator splits into at least two pieces. */
  lemma {:induction false} SplitHasTwoParts(s: string, sep: char)
    requires sep in s
    ensures |Split(s, sep)| >= 2
    decreases |s|
  {
    if s[0] != sep {
      SplitHasTwoParts(s[1..], sep);
    }
  }

  /** `str(n)` for a natural number: its decimal digits, most significant first. */
  function NatToString(n: nat): string
    decreases n
  {
    if n < 10 then [DigitChar(n)] else NatToString(n / 10) + [DigitChar(n % 10)]
  }

  /** The number a string of decimal digits denotes. */
  function DecimalValue(s: string): nat
    requires AllDigits(s)
    decreases |s|
  {
    if |s| == 0 then 0 else 10 * DecimalValue(s[..|s| - 1]) + DigitValue(s[|s| - 1])
  }

  /** `str(n)` is a string of digits without leading zeros that reads back as `n`. */
  lemma {:induction false} NatToStringDecimal(n: nat)
    ensures AllDigits(NatToString(n)) && |NatToString(n)| >= 1
    ensures DecimalValue(NatToString(n)) == n
    ensures (NatToString(n)[0] == '0') <==> n == 0
    decreases n
  {
    if n >= 10 {
      NatToStringDecimal(n / 10);
      var s := NatToString(n);
      assert s[..|s| - 1] == NatToString(n / 10);
    }
  }

  /** The number of characters of `str(n)`. */
  lemma {:induction false} NatToStringLength(n: nat)
    ensures n < 10 ==> |NatToString(n)| == 1
    ensures 10 <= n < 100 ==> |NatToString(n)| == 2
    ensures 100 <= n < 1000 ==> |NatToString(n)| == 3
  {
    if n >= 10 {
      NatToStringLength(n / 10);
    }
  }

  /** `f"{n:03}"`: the decimal digits of `n`, left-padded with zeros to width 3. */
  function ZeroPad3(n: nat): string
  {
    var s := NatToString(n);
    if |s| >= 3 then s else seq(3 - |s|, _ => '0') + s
  }

  /** Leading zeros do not change the value a digit string denotes. */
  lemma {:induction false} LeadingZeros(k: nat, s: string)
    requires AllDigits(s)
    ensures AllDigits(seq(k, _ => '0') + s)
    ensures DecimalValue(seq(k, _ => '0') + s) == DecimalValue(s)
    decreases |s|
  {
    var z := seq(k, _ => '0');
    if |s| == 0 {
      assert z + s == z;
      ZerosValue(k);
    } else {
      var t := z + s;
      assert t[..|t| - 1] == z + s[..|s| - 1];
      LeadingZeros(k, s[..|s| - 1]);
    }
  }

  lemma {:induction false} ZerosValue(k: nat)
    ensures AllDigits(seq(k, _ => '0'))
    ensures DecimalValue(seq(k, _ => '0')) == 0
    decreases k
  {
    if k > 0 {
      assert seq(k, _ => '0')[..k - 1] == seq(k - 1, _ => '0');
      ZerosValue(k - 1);
    }
  }

  /** For `n < 1000`, `f"{n:03}"` is exactly three digits and reads back as `n`. */
  lemma ZeroPad3Decimal(n: nat)
    requires n < 1000
    ensures |ZeroPad3(n)| == 3 && AllDigits(ZeroPad3(n))
    ensures DecimalValue(ZeroPad3(n)) == n
  {
    NatToStringDecimal(n);
    NatToStringLength(n);
    var s := NatToString(n);
    if |s| < 3 {
      LeadingZeros(3 - |s|, s);
    }
  }

  predicate IsPathSeparator(ch: char)
  {
    ch == '/' || ch == '\\'
  }

  /** `os.path.basename` on Windows: the text after the last `/` or `\`. */
  function Basename(path: string): (b: string)
    ensures forall k :: 0 <= k < |b| ==> !IsPathSeparator(b[k])
    decreases |path|
  {
    if |path| == 0 || IsPathSeparator(path[|path| - 1]) then ""
    else Basename(path[..|path| - 1]) + [path[|path| - 1]]
  }

  /** The base name is a suffix of the path, preceded by a separator unless it is all of it. */
  lemma {:induction false} BasenameSuffix(path: string)
    ensures EndsWith(path, Basename(path))
    ensures |Basename(path)| < |path| ==> IsPathSeparator(path[|path| - |Basename(path)| - 1])
    decreases |path|
  {
    if |path| > 0 && !IsPathSeparator(path[|path| - 1]) {
      var p, last := path[..|path| - 1], path[|path| - 1];
      BasenameSuffix(p);
      var b := Basename(p);
      assert Basename(path) == b + [last];
      assert path == p + [last];
      assert path[|path| - |b| - 1..] == p[|p| - |b|..] + [last];
      if |b| + 1 < |path| {
        assert path[|path| - |b| - 2] == p[|p| - |b| - 1];
      }
    }
  }

  /** A name without separators is its own base name. */
  lemma {:induction false} BasenameOfPlainName(name: string)
    requires forall k :: 0 <= k < |name| ==> !IsPathSeparator(name[k])
    ensures Basename(name) == name
    decreases |name|
  {
    if |name| > 0 {
      BasenameOfPlainName(name[..|name| - 1]);
    }
  }

  /** The base name of `dir + name` is `name` when `dir` ends in a separator and `name` has none. */
  lemma {:induction false} BasenameOfJoin(dir: string, name: string)
    requires |dir| > 0 && IsPathSeparator(dir[|dir| - 1])
    requires forall k :: 0 <= k < |name| ==> !IsPathSeparator(name[k])
    ensures Basename(dir + name) == name
    decreases |name|
  {
    if |name| == 0 {
      assert dir + name == dir;
    } else {
      assert (dir + name)[..|dir + name| - 1] == dir + name[..|name| - 1];
      BasenameOfJoin(dir, name[..|name| - 1]);
    }
  }
}
