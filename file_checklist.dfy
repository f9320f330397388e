/**
 * Checklistoffiles.py: the tile codes (`00N_000E`) found at the start of the
 * file names of two directories, and the codes present in only one of them.
 * The directory listings are parameters.
 */
module FileChecklist {
  import opened Strs
  import opened Wrappers

  /**
   * `extract_lat_lon_code`: the first two `_`-separated pieces joined by `_`.
   * Without a `_` there is no second piece and Python raises `IndexError`: `None`.
   */
  function ExtractCode(name: string): (r: Option<string>)
    ensures r.Some? <==> '_' in name
  {
    var parts := Split(name, '_');
    if '_' !in name then None
    else
      SplitHasTwoParts(name, '_');
      Some(parts[0] + "_" + parts[1])
  }

  /** Exactly one position of `s` holds `_`. */
  predicate OneUnderscore(s: string)
  {
    exists k :: 0 <= k < |s| && s[k] == '_' && forall m :: 0 <= m < |s| && m != k ==> s[m] != '_'
  }

  /** `Join` begins with its first piece, followed by the separator when there is more. */
  lemma JoinStart(ps: seq<string>, sep: char)
    requires |ps| >= 1
    ensures |Join(ps, sep)| >= |ps[0]| && Join(ps, sep)[..|ps[0]|] == ps[0]
    ensures |ps| == 1 ==> Join(ps, sep) == ps[0]
    ensures |ps| > 1 ==> |Join(ps, sep)| > |ps[0]| && Join(ps, sep)[|ps[0]|] == sep
  {
    if |ps| > 1 {
      assert Join(ps, sep) == ps[0] + ([sep] + Join(ps[1..], sep));
    }
  }

  /**
   * The code is the longest prefix of the name holding exactly one `_`: it is a
   * prefix, it has one `_`, and it is the whole name or is followed by a `_`.
   */
  lemma ExtractCodeShape(name: string)
    requires '_' in name
    ensures var code := ExtractCode(name).value;
      && |code| <= |name| && code == name[..|code|]
      && OneUnderscore(code)
      && (|code| == |name| || name[|code|] == '_')
  {
    var parts := Split(name, '_');
    SplitHasTwoParts(name, '_');
    SplitJoin(name, '_');
    var p0, p1 := parts[0], parts[1];
    var tail := Join(parts[1..], '_');
    assert name == p0 + ([('_')] + tail);
    assert parts[1..][0] == p1;
    JoinStart(parts[1..], '_');
    var code := p0 + "_" + p1;
    assert ExtractCode(name).value == code;
    assert |code| <= |name|;
    forall m | 0 <= m < |code| ensures code[m] == name[m] {
      if m > |p0| {
        assert code[m] == p1[m - |p0| - 1] == tail[..|p1|][m - |p0| - 1];
      }
    }
    assert code == name[..|code|];
    forall m | 0 <= m < |code| && m != |p0| ensures code[m] != '_' {
      if m < |p0| {
        assert code[m] == p0[m];
      } else {
        assert code[m] == p1[m - |p0| - 1];
      }
    }
    assert code[|p0|] == '_';
    if |code| < |name| {
      assert |parts[1..]| > 1;
      assert name[|code|] == tail[|p1|];
    }
  }

  /** Splitting text without the separator gives the text as its only piece. */
  lemma {:induction false} SplitNoSeparator(s: string, sep: char)
    requires sep !in s
    ensures Split(s, sep) == [s]
    decreases |s|
  {
    if |s| > 0 {
      SplitNoSeparator(s[1..], sep);
      assert [s[0]] + s[1..] == s;
    }
  }

  /** A separator-free head ahead of the first separator becomes the first piece. */
  lemma {:induction false} SplitAfterHead(a: string, s: string, sep: char)
    requires sep !in a
    ensures Split(a + [sep] + s, sep) == [a] + Split(s, sep)
    decreases |a|
  {
    if |a| > 0 {
      SplitAfterHead(a[1..], s, sep);
      assert (a + [sep] + s)[1..] == a[1..] + [sep] + s;
      assert [a[0]] + a[1..] == a;
    } else {
      assert a + [sep] + s == [sep] + s;
    }
  }

  /** `12N_010E_forest.tif` and `12N_010E` both have the code `12N_010E`. */
  lemma ExtractCodeOfTileName(lat: string, lon: string, rest: string)
    requires '_' !in lat && '_' !in lon
    requires rest == "" || rest[0] == '_'
    ensures ExtractCode(lat + "_" + lon + rest) == Some(lat + "_" + lon)
  {
    var name := lat + "_" + lon + rest;
    assert name[|lat|] == '_';
    if rest == "" {
      SplitNoSeparator(lon, '_');
      assert name == lat + ['_'] + lon;
      SplitAfterHead(lat, lon, '_');
    } else {
      var more := rest[1..];
      assert name == lat + ['_'] + (lon + ['_'] + more);
      SplitAfterHead(lat, lon + ['_'] + more, '_');
      SplitAfterHead(lon, more, '_');
    }
  }

  /** `f` has a `_` and its code is `c`. */
  predicate HasCode(f: string, c: string)
  {
    ExtractCode(f) == Some(c)
  }

  /** `{extract_lat_lon_code(file) for file in files if '_' in file}` */
  function Codes(files: seq<string>): (codes: set<string>)
    ensures forall c :: c in codes <==> exists f :: f in files && HasCode(f, c)
  {
    set f | f in files && '_' in f :: ExtractCode(f).value
  }

  /** `codes_dir1 - codes_dir2` and `codes_dir2 - codes_dir1` */
  function Unique(files1: seq<string>, files2: seq<string>): (u: (set<string>, set<string>))
  {
    (Codes(files1) - Codes(files2), Codes(files2) - Codes(files1))
  }

  /** A code is unique to the first directory iff some file there has it and no file in the second does. */
  lemma UniqueMembership(files1: seq<string>, files2: seq<string>, c: string)
    ensures c in Unique(files1, files2).0 <==>
      (exists f :: f in files1 && HasCode(f, c)) && !(exists f :: f in files2 && HasCode(f, c))
    ensures c in Unique(files1, files2).1 <==>
      (exists f :: f in files2 && HasCode(f, c)) && !(exists f :: f in files1 && HasCode(f, c))
  {
  }

  /** No code is reported for both directories, and swapping the directories swaps the reports. */
  lemma UniqueDisjointAndSymmetric(files1: seq<string>, files2: seq<string>)
    ensures Unique(files1, files2).0 !! Unique(files1, files2).1
    ensures Unique(files2, files1) == (Unique(files1, files2).1, Unique(files1, files2).0)
  {
  }

  /** Both reports are empty exactly when the two directories hold the same codes. */
  lemma NothingUniqueIff(files1: seq<string>, files2: seq<string>)
    ensures Unique(files1, files2) == ({}, {}) <==> Codes(files1) == Codes(files2)
  {
    var c1, c2 := Codes(files1), Codes(files2);
    if c1 - c2 == {} && c2 - c1 == {} {
      assert forall c :: c in c1 ==> c in c2 by {
        forall c | c in c1 ensures c in c2 {
          assert c !in c1 - c2;
        }
      }
      assert forall c :: c in c2 ==> c in c1 by {
        forall c | c in c2 ensures c in c1 {
          assert c !in c2 - c1;
        }
      }
    }
  }

  /** Files without a `_` never contribute a code. */
  lemma NamesWithoutUnderscoreIgnored(files: seq<string>, f: string)
    requires '_' !in f
    ensures Codes(files + [f]) == Codes(files)
  {
    forall c ensures c in Codes(files + [f]) <==> c in Codes(files) {
      if c in Codes(files + [f]) {
        var g :| g in files + [f] && HasCode(g, c);
        assert g != f;
        assert g in files;
      }
    }
  }
}
