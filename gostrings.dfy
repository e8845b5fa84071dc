/**
 * The parts of Go's `strings` and `regexp` packages that the matcher relies on,
 * written as functions over `string` (a sequence of runes).  Only what the
 * sanitised text can contain matters here: after sanitising, ' ' is the only
 * whitespace character left, so whitespace is ' ' throughout.
 */
module GoStrings {

  /** `unicode.ToLower`, restricted to ASCII: 'A'..'Z' become 'a'..'z'. */
  function LowerChar(c: char): (l: char)
    ensures 'A' <= c <= 'Z' ==> 'a' <= l <= 'z' && l as int - 'a' as int == c as int - 'A' as int
    ensures !('A' <= c <= 'Z') ==> l == c
  {
    if 'A' <= c <= 'Z' then (c as int - 'A' as int + 'a' as int) as char else c
  }

  /** `strings.ToLower`: lower-cases every rune, keeping the length. */
  function ToLower(s: string): (r: string)
    ensures |r| == |s|
    ensures forall i :: 0 <= i < |s| ==> r[i] == LowerChar(s[i])
  {
    seq(|s|, i requires 0 <= i < |s| => LowerChar(s[i]))
  }

  /** No space at either end. */
  predicate NoEdgeSpaces(s: string) {
    |s| > 0 ==> s[0] != ' ' && s[|s| - 1] != ' '
  }

  /** No two adjacent spaces. */
  predicate NoDoubleSpaces(s: string) {
    forall i :: 0 <= i < |s| - 1 ==> s[i] != ' ' || s[i + 1] != ' '
  }

  /** `n` spaces. */
  function Spaces(n: nat): (r: string)
    ensures |r| == n && forall k :: 0 <= k < n ==> r[k] == ' '
  {
    if n == 0 then [] else [' '] + Spaces(n - 1)
  }

  /** A space after `n` spaces makes `n + 1`. */
  lemma {:induction false} SpacesSnoc(n: nat)
    ensures Spaces(n) + [' '] == Spaces(n + 1)
  {
    if n > 0 {
      SpacesSnoc(n - 1);
      assert Spaces(n) + [' '] == [' '] + (Spaces(n - 1) + [' ']);
    }
  }

  /** Drops the leading spaces. */
  function TrimLeft(s: string): (r: string)
    ensures |r| <= |s| && s == Spaces(|s| - |r|) + r
    ensures r == [] || r[0] != ' '
  {
    if |s| > 0 && s[0] == ' ' then
      var r := TrimLeft(s[1..]);
      assert s == [' '] + s[1..];
      r
    else
      assert Spaces(0) + s == s;
      s
  }

  /** Drops the trailing spaces. */
  function TrimRight(s: string): (r: string)
    ensures |r| <= |s| && s == r + Spaces(|s| - |r|)
    ensures r == [] || r[|r| - 1] != ' '
  {
    if |s| > 0 && s[|s| - 1] == ' ' then
      var r := TrimRight(s[..|s| - 1]);
      assert s == s[..|s| - 1] + [' '];
      SpacesSnoc(|s| - 1 - |r|);
      r
    else
      assert s + Spaces(0) == s;
      s
  }

  /**
   * `strings.TrimSpace` on text whose only whitespace is ' ': what is left
   * once the spaces at both ends are cut off.
   */
  function TrimSpace(s: string): (r: string)
    ensures NoEdgeSpaces(r)
    ensures exists m: nat, n: nat :: s == Spaces(m) + r + Spaces(n)
  {
    var l := TrimLeft(s);
    var r := TrimRight(l);
    assert s == Spaces(|s| - |l|) + r + Spaces(|l| - |r|);
    r
  }

  /**
   * `regexp.MustCompile("\\s+").ReplaceAllString(s, " ")` on text whose only
   * whitespace is ' ': every run of spaces becomes one space.
   */
  function CollapseSpaces(s: string): (r: string)
    ensures NoDoubleSpaces(r)
    ensures |r| <= |s|
    ensures |s| > 0 ==> |r| > 0 && r[0] == s[0] && r[|r| - 1] == s[|s| - 1]
    ensures forall c :: c in r ==> c in s
  {
    if |s| < 2 then s
    else if s[0] == ' ' && s[1] == ' ' then CollapseSpaces(s[1..])
    else [s[0]] + CollapseSpaces(s[1..])
  }

  /** `strings.Split(s, string(sep))`: the pieces between occurrences of `sep`. */
  function Split(s: string, sep: char): (parts: seq<string>)
    ensures |parts| >= 1
    ensures forall k :: 0 <= k < |parts| ==> sep !in parts[k]
  {
    if |s| == 0 then [""]
    else
      var rest := Split(s[1..], sep);
      if s[0] == sep then [""] + rest
      else [[s[0]] + rest[0]] + rest[1..]
  }

  /** `strings.Join(parts, string(sep))`. */
  function Join(parts: seq<string>, sep: char): (s: string)
  {
    if |parts| == 0 then ""
    else if |parts| == 1 then parts[0]
    else parts[0] + [sep] + Join(parts[1..], sep)
  }

  /** Joining what `Split` cut gives back the original text. */
  lemma {:induction false} JoinSplit(s: string, sep: char)
    ensures Join(Split(s, sep), sep) == s
  {
    if |s| > 0 {
      var rest := Split(s[1..], sep);
      JoinSplit(s[1..], sep);
      if s[0] == sep {
        assert Split(s, sep) == [""] + rest;
        assert ([""] + rest)[1..] == rest;
      } else {
        var parts := [[s[0]] + rest[0]] + rest[1..];
        assert Split(s, sep) == parts;
        if |rest| == 1 {
          assert Join(rest, sep) == rest[0];
        } else {
          assert parts[1..] == rest[1..];
          assert Join(rest, sep) == rest[0] + [sep] + Join(rest[1..], sep);
        }
      }
    }
  }

  /** Appending one more part to a non-empty list of parts. */
  lemma {:induction false} JoinSnoc(parts: seq<string>, last: string, sep: char)
    requires |parts| > 0
    ensures Join(parts + [last], sep) == Join(parts, sep) + [sep] + last
  {
    if |parts| == 1 {
      assert (parts + [last])[1..] == [last];
    } else {
      assert (parts + [last])[1..] == parts[1..] + [last];
      JoinSnoc(parts[1..], last, sep);
    }
  }

  /** The non-empty strings of `parts`, in order. */
  function NonEmpty(parts: seq<string>): (r: seq<string>)
    ensures forall x :: x in r ==> x in parts && x != ""
  {
    if |parts| == 0 then []
    else (if parts[0] == "" then [] else [parts[0]]) + NonEmpty(parts[1..])
  }

  /**
   * `strings.Fields` on text whose only whitespace is ' ': the non-empty
   * pieces between spaces.
   */
  function Fields(s: string): (fields: seq<string>)
    ensures forall x :: x in fields ==> x != "" && ' ' !in x
  {
    NonEmpty(Split(s, ' '))
  }

  /** A leading space adds no field. */
  lemma FieldsConsSpace(x: string)
    ensures Fields([' '] + x) == Fields(x)
  {
    var s := [' '] + x;
    assert s[1..] == x;
    assert Split(s, ' ') == [""] + Split(x, ' ');
    assert ([""] + Split(x, ' '))[1..] == Split(x, ' ');
  }

  /** A non-space followed by a space or by nothing is a field of its own. */
  lemma FieldsConsWord(c: char, x: string)
    requires c != ' ' && (x == [] || x[0] == ' ')
    ensures Fields([c] + x) == [[c]] + Fields(x)
  {
    var s := [c] + x;
    assert s[1..] == x;
    var rest := Split(x, ' ');
    var parts := [[c] + rest[0]] + rest[1..];
    assert Split(s, ' ') == parts;
    assert parts[1..] == rest[1..];
    assert rest[0] == "" by {
      if x != [] {
        assert rest == [""] + Split(x[1..], ' ');
      }
    }
    assert parts[0] == [c];
    assert NonEmpty(rest) == NonEmpty(rest[1..]);
  }

  /** A non-space in front of a non-space joins the first field. */
  lemma FieldsConsExtend(c: char, x: string)
    requires c != ' ' && x != [] && x[0] != ' '
    ensures |Fields(x)| > 0 && Fields([c] + x) == [[c] + Fields(x)[0]] + Fields(x)[1..]
  {
    var s := [c] + x;
    assert s[1..] == x;
    var rest := Split(x, ' ');
    var parts := [[c] + rest[0]] + rest[1..];
    assert Split(s, ' ') == parts;
    assert parts[1..] == rest[1..];
    assert x == [x[0]] + x[1..];
    assert rest[0] != "";
  }

  /** Text that starts with a non-space has a field. */
  lemma FieldsStartWord(s: string)
    requires s != [] && s[0] != ' '
    ensures |Fields(s)| > 0
  {
    assert s == [s[0]] + s[1..];
    if s[1..] == [] || s[1] == ' ' {
      FieldsConsWord(s[0], s[1..]);
    } else {
      FieldsConsExtend(s[0], s[1..]);
    }
  }

  /** The fields of a text one rune longer at the front. */
  lemma FieldsCons(c: char, x: string)
    ensures c == ' ' ==> Fields([c] + x) == Fields(x)
    ensures c != ' ' && (x == [] || x[0] == ' ') ==> Fields([c] + x) == [[c]] + Fields(x)
    ensures c != ' ' && x != [] && x[0] != ' ' ==>
      |Fields(x)| > 0 && Fields([c] + x) == [[c] + Fields(x)[0]] + Fields(x)[1..]
  {
    if c == ' ' {
      FieldsConsSpace(x);
    } else if x == [] || x[0] == ' ' {
      FieldsConsWord(c, x);
    } else {
      FieldsConsExtend(c, x);
    }
  }

  /** A trailing space adds no field. */
  lemma {:induction false} FieldsSnocSpace(x: string)
    ensures Fields(x + [' ']) == Fields(x)
  {
    if x == [] {
      FieldsCons(' ', []);
      assert [' '] + [] == x + [' '];
    } else {
      var y := x[1..];
      assert x == [x[0]] + y;
      assert x + [' '] == [x[0]] + (y + [' ']);
      FieldsSnocSpace(y);
      FieldsCons(x[0], y);
      FieldsCons(x[0], y + [' ']);
    }
  }

  /** Cutting leading spaces keeps the fields. */
  lemma {:induction false} FieldsTrimLeft(s: string)
    ensures Fields(TrimLeft(s)) == Fields(s)
  {
    if |s| > 0 && s[0] == ' ' {
      assert s == [' '] + s[1..];
      FieldsCons(' ', s[1..]);
      FieldsTrimLeft(s[1..]);
    }
  }

  /** Cutting trailing spaces keeps the fields. */
  lemma {:induction false} FieldsTrimRight(s: string)
    ensures Fields(TrimRight(s)) == Fields(s)
  {
    if |s| > 0 && s[|s| - 1] == ' ' {
      assert s == s[..|s| - 1] + [' '];
      FieldsSnocSpace(s[..|s| - 1]);
      FieldsTrimRight(s[..|s| - 1]);
    }
  }

  /** `TrimSpace` keeps the fields: only spaces are cut. */
  lemma FieldsTrimSpace(s: string)
    ensures Fields(TrimSpace(s)) == Fields(s)
  {
    FieldsTrimLeft(s);
    FieldsTrimRight(TrimLeft(s));
  }

  /** Collapsing runs of spaces keeps the fields: no rune other than a space is lost, added or moved. */
  lemma {:induction false} FieldsCollapse(s: string)
    ensures Fields(CollapseSpaces(s)) == Fields(s)
  {
    if |s| >= 2 {
      var y := s[1..];
      assert s == [s[0]] + y;
      FieldsCollapse(y);
      FieldsCons(s[0], y);
      if !(s[0] == ' ' && s[1] == ' ') {
        FieldsCons(s[0], CollapseSpaces(y));
      }
    }
  }

  /** Gluing a rune to the front of the first part. */
  lemma JoinConsHead(c: char, parts: seq<string>, sep: char)
    requires |parts| > 0
    ensures Join([[c] + parts[0]] + parts[1..], sep) == [c] + Join(parts, sep)
  {
    var glued := [[c] + parts[0]] + parts[1..];
    assert glued[1..] == parts[1..];
  }

  /** A suffix of single-spaced, unpadded text that starts on a non-space is single-spaced and unpadded too. */
  lemma SingleSpacedSuffix(s: string, k: nat)
    requires NoEdgeSpaces(s) && NoDoubleSpaces(s)
    requires k < |s| && s[k] != ' '
    ensures NoEdgeSpaces(s[k..]) && NoDoubleSpaces(s[k..])
  {
    var z := s[k..];
    forall i | 0 <= i < |z| - 1
      ensures z[i] != ' ' || z[i + 1] != ' '
    {
      assert z[i] == s[i + k] && z[i + 1] == s[i + k + 1];
    }
  }

  /** Joining a part in front of at least one more. */
  lemma JoinCons(p: string, parts: seq<string>, sep: char)
    requires |parts| > 0
    ensures Join([p] + parts, sep) == p + [sep] + Join(parts, sep)
  {
    assert ([p] + parts)[1..] == parts;
  }

  /** Text without edge or double spaces is its fields joined by single spaces. */
  lemma {:induction false} JoinFields(s: string)
    requires NoEdgeSpaces(s) && NoDoubleSpaces(s)
    ensures Join(Fields(s), ' ') == s
    decreases |s|
  {
    if |s| > 0 {
      var c, y := s[0], s[1..];
      assert s == [c] + y;
      if y == [] {
        FieldsConsWord(c, y);
        assert Fields(y) == [];
      } else if y[0] == ' ' {
        FieldsConsWord(c, y);
        var z := s[2..];
        assert y == [' '] + z;
        FieldsConsSpace(z);
        SingleSpacedSuffix(s, 2);
        JoinFields(z);
        FieldsStartWord(z);
        JoinCons([c], Fields(z), ' ');
      } else {
        FieldsConsExtend(c, y);
        SingleSpacedSuffix(s, 1);
        JoinFields(y);
        JoinConsHead(c, Fields(y), ' ');
      }
    }
  }

  /** A text without the separator is a single piece. */
  lemma {:induction false} SplitWithoutSep(p: string, sep: char)
    requires sep !in p
    ensures Split(p, sep) == [p]
  {
    if |p| > 0 {
      SplitWithoutSep(p[1..], sep);
      assert [p[0]] + p[1..] == p;
    }
  }

  /** A piece without the separator, then the separator, is split off at the front. */
  lemma {:induction false} SplitAfterPiece(p: string, sep: char, t: string)
    requires sep !in p
    ensures Split(p + [sep] + t, sep) == [p] + Split(t, sep)
  {
    var s := p + [sep] + t;
    if |p| == 0 {
      assert s == [sep] + t && s[1..] == t;
    } else {
      SplitAfterPiece(p[1..], sep, t);
      assert s[1..] == p[1..] + [sep] + t;
      assert s[0] == p[0] && s[0] != sep;
      assert [p[0]] + p[1..] == p;
    }
  }

  /** Splitting what `Join` glued gives back the parts, when no part holds the separator. */
  lemma {:induction false} SplitJoin(parts: seq<string>, sep: char)
    requires |parts| > 0
    requires forall k :: 0 <= k < |parts| ==> sep !in parts[k]
    ensures Split(Join(parts, sep), sep) == parts
  {
    if |parts| == 1 {
      SplitWithoutSep(parts[0], sep);
    } else {
      SplitJoin(parts[1..], sep);
      SplitAfterPiece(parts[0], sep, Join(parts[1..], sep));
      assert [parts[0]] + parts[1..] == parts;
    }
  }
}
