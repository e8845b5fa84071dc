/**
 * Bigrams: ordered pairs of characters drawn from ' ', 'a' .. 'z', their
 * dense index, the validating constructor, and the canonical form (`Clean`)
 * that text is put into before bigrams are taken from it.
 */
module Bigrams {
  import opened Wrappers
  import opened GoStrings

  /** Go's `uint` is 64 bits wide; converting a negative `int` wraps modulo 2^64. */
  const UintModulus: int := 0x1_0000_0000_0000_0000

  /**
   * `magn`: the position of a rune in the sequence ' ', 'a', 'b', ..., 'z'.
   * Any rune other than ' ' is measured from 'a', so runes below 'a' give
   * values of zero or less.
   */
  function Magn(c: char): (m: int)
    ensures c == ' ' ==> m == 0
    ensures 'a' <= c <= 'z' ==> 1 <= m <= 26
    ensures c != ' ' ==> (m < 0 <==> c < '`')
  {
    if c == ' ' then 0 else c as int - 'a' as int + 1
  }

  /**
   * `validate`: whether `0 <= magn(c) <= magn('z')`. The runes it accepts
   * are the space, the backtick and 'a' .. 'z'.
   */
  predicate Validate(c: char)
    ensures Validate(c) <==> c == ' ' || c == '`' || 'a' <= c <= 'z'
  {
    Magn(c) >= 0 && Magn(c) <= Magn('z')
  }

  /** The backtick passes `validate` and measures the same as the space. */
  lemma BacktickAliasesSpace()
    ensures Validate('`') && Magn('`') == Magn(' ') == 0
  {
  }

  /** Two runes that `validate` accepts have the same magnitude only if equal or ' ' and '`'. */
  lemma MagnCollides(c: char, d: char)
    requires Validate(c) && Validate(d)
    ensures Magn(c) == Magn(d) <==> c == d || (c == ' ' && d == '`') || (c == '`' && d == ' ')
  {
  }

  datatype Bigram = Bigram(a: char, b: char) {

    /**
     * `Idx`: `uint(magn(a) * ('z' - 'a') + magn(b))`.  The factor is
     * 'z' - 'a' = 25, not 27 (the number of magnitudes).
     */
    function Idx(): (i: nat)
      ensures i < UintModulus
      ensures Validate(a) && Validate(b) ==> i == Magn(a) * 25 + Magn(b) && i <= 676
    {
      (Magn(a) * ('z' as int - 'a' as int) + Magn(b)) % UintModulus
    }
  }

  /** Why `New` rejects its argument. */
  datatype BigramError = InvalidLength(length: nat) | InvalidCharacter(text: string)

  /** `New(ab)`: the bigram of a two-rune string whose runes pass `validate`. */
  function New(ab: string): (r: Result<Bigram, BigramError>)
    ensures r.Ok? <==> |ab| == 2 && Validate(ab[0]) && Validate(ab[1])
    ensures r.Ok? ==> r.value.a == ab[0] && r.value.b == ab[1] && r.value.Idx() <= 676
    ensures |ab| != 2 ==> r == Err(InvalidLength(|ab|))
  {
    if |ab| != 2 then Err(InvalidLength(|ab|))
    else if Validate(ab[0]) && Validate(ab[1]) then Ok(Bigram(ab[0], ab[1]))
    else Err(InvalidCharacter(ab))
  }

  /** Spelling out a valid bigram and reading it back with `New` gives the same bigram. */
  lemma NewRoundTrip(bg: Bigram)
    requires Validate(bg.a) && Validate(bg.b)
    ensures New([bg.a, bg.b]) == Ok(bg)
  {
  }

  /** The first and last bigrams in the documented order get the indices 0 and 676. */
  lemma IdxRange()
    ensures Bigram(' ', ' ').Idx() == 0
    ensures Bigram('z', 'z').Idx() == 676
  {
  }

  /**
   * The index claims to be unique, but two valid bigrams share an index
   * exactly when their magnitudes agree, or when the first rune of one
   * measures one more and its second rune measures 25 less than the other's.
   */
  lemma IdxCollision(x: Bigram, y: Bigram)
    requires Validate(x.a) && Validate(x.b) && Validate(y.a) && Validate(y.b)
    ensures x.Idx() == y.Idx() <==>
      (Magn(x.a) == Magn(y.a) && Magn(x.b) == Magn(y.b)) ||
      (Magn(y.a) == Magn(x.a) + 1 && Magn(x.b) == Magn(y.b) + 25) ||
      (Magn(x.a) == Magn(y.a) + 1 && Magn(y.b) == Magn(x.b) + 25)
  {
    var ma, mb, na, nb := Magn(x.a), Magn(x.b), Magn(y.a), Magn(y.b);
    if x.Idx() == y.Idx() {
      assert 25 * (ma - na) == nb - mb;
      assert -1 <= ma - na <= 1;
    }
  }

  /** The collision that disproves uniqueness: " z" and "aa" both have index 26. */
  lemma SpaceZCollidesWithAA()
    ensures Bigram(' ', 'z').Idx() == Bigram('a', 'a').Idx() == 26
    ensures Bigram(' ', 'z') != Bigram('a', 'a')
  {
  }

  /** The runes the comment on `validate` names: lower-case English letters and the space. */
  predicate IntendedValidate(c: char) {
    c == ' ' || 'a' <= c <= 'z'
  }

  /**
   * The intended check differs from `validate` only on the backtick, and on
   * the runes it accepts the magnitude tells every rune apart.
   */
  lemma IntendedValidateExactly(c: char, d: char)
    ensures IntendedValidate(c) <==> Validate(c) && c != '`'
    ensures IntendedValidate(c) && IntendedValidate(d) ==> (Magn(c) == Magn(d) <==> c == d)
  {
  }

  /** The index with factor 27, one per magnitude, which lists bigrams in the documented order. */
  function IntendedIdx(bg: Bigram): (i: nat)
    requires IntendedValidate(bg.a) && IntendedValidate(bg.b)
    ensures i <= 26 * 27 + 26
  {
    Magn(bg.a) * 27 + Magn(bg.b)
  }

  /** With factor 27 every bigram of intended runes gets its own index. */
  lemma IntendedIdxInjective(x: Bigram, y: Bigram)
    requires IntendedValidate(x.a) && IntendedValidate(x.b)
    requires IntendedValidate(y.a) && IntendedValidate(y.b)
    ensures IntendedIdx(x) == IntendedIdx(y) <==> x == y
  {
    if IntendedIdx(x) == IntendedIdx(y) {
      var ma, mb, na, nb := Magn(x.a), Magn(x.b), Magn(y.a), Magn(y.b);
      assert 27 * (ma - na) == nb - mb;
      assert ma == na;
      IntendedValidateExactly(x.a, y.a);
      IntendedValidateExactly(x.b, y.b);
    }
  }

  // ---------------------------------------------------------------------
  // Canonical text
  // ---------------------------------------------------------------------

  /** Every rune passes `validate`. */
  predicate AllValid(s: string) {
    forall i :: 0 <= i < |s| ==> Validate(s[i])
  }

  /** The canonical form `Clean` produces. */
  predicate IsClean(s: string) {
    AllValid(s) && NoEdgeSpaces(s) && NoDoubleSpaces(s)
  }

  /** A rune `validate` rejects becomes a space, which separates words. */
  function SanitiseChar(c: char): (d: char)
    ensures Validate(d)
    ensures Validate(c) ==> d == c
    ensures !Validate(c) ==> d == ' '
  {
    if Validate(c) then c else ' '
  }

  /** The text the builder in `Clean` holds once every rune has been written. */
  function Sanitise(s: string): (r: string)
    ensures |r| == |s| && AllValid(r)
    ensures forall i :: 0 <= i < |s| ==> r[i] == (if Validate(s[i]) then s[i] else ' ')
  {
    seq(|s|, i requires 0 <= i < |s| => SanitiseChar(s[i]))
  }

  /** Both halves of valid text are valid. */
  lemma AllValidSplit(x: string, y: string)
    requires AllValid(x + y)
    ensures AllValid(x) && AllValid(y)
  {
    forall k | 0 <= k < |x|
      ensures Validate(x[k])
    {
      assert x[k] == (x + y)[k];
    }
    forall k | 0 <= k < |y|
      ensures Validate(y[k])
    {
      assert y[k] == (x + y)[|x| + k];
    }
  }

  lemma {:induction false} TrimKeepsValid(s: string)
    requires AllValid(s)
    ensures AllValid(TrimSpace(s))
  {
    var l := TrimLeft(s);
    AllValidSplit(Spaces(|s| - |l|), l);
    AllValidSplit(TrimRight(l), Spaces(|l| - |TrimRight(l)|));
  }

  lemma {:induction false} CollapseKeepsValid(s: string)
    requires AllValid(s)
    ensures AllValid(CollapseSpaces(s))
  {
    var r := CollapseSpaces(s);
    forall k | 0 <= k < |r|
      ensures Validate(r[k])
    {
      assert r[k] in r;
      var m :| 0 <= m < |s| && s[m] == r[k];
    }
  }

  /** The functional meaning of `Clean`: lower-case, sanitise, trim, collapse. */
  function Cleaned(text: string): (r: string)
    ensures IsClean(r)
  {
    var sanitised := Sanitise(ToLower(text));
    var trimmed := TrimSpace(sanitised);
    TrimKeepsValid(sanitised);
    CollapseKeepsValid(trimmed);
    CollapseSpaces(trimmed)
  }

  /** `Clean(text)`: the builder loop over the lower-cased runes, then trim and collapse. */
  method Clean(text: string) returns (r: string)
    ensures r == Cleaned(text)
    ensures IsClean(r)
  {
    var lowered := ToLower(text);
    var sanitised := "";
    for n := 0 to |lowered|
      invariant |sanitised| == n
      invariant forall k :: 0 <= k < n ==> sanitised[k] == SanitiseChar(lowered[k])
    {
      var c := lowered[n];
      if Validate(c) {
        sanitised := sanitised + [c];
      } else {
        // The rune is treated as punctuation that splits words.
        sanitised := sanitised + [' '];
      }
    }
    assert sanitised == Sanitise(lowered);
    r := TrimSpace(sanitised);
    r := CollapseSpaces(r);
  }

  lemma {:induction false} CollapseFixesSingleSpaced(s: string)
    requires NoDoubleSpaces(s)
    ensures CollapseSpaces(s) == s
  {
    if |s| >= 2 {
      assert NoDoubleSpaces(s[1..]) by {
        forall i | 0 <= i < |s[1..]| - 1
          ensures s[1..][i] != ' ' || s[1..][i + 1] != ' '
        {
          assert s[1..][i] == s[i + 1] && s[1..][i + 1] == s[i + 2];
        }
      }
      CollapseFixesSingleSpaced(s[1..]);
      assert s[0] != ' ' || s[1] != ' ';
      assert [s[0]] + s[1..] == s;
    }
  }

  /** Lower-casing and sanitising leave text of valid runes unchanged. */
  lemma SanitiseFixesValid(s: string)
    requires AllValid(s)
    ensures Sanitise(ToLower(s)) == s
  {
    assert forall i :: 0 <= i < |s| ==> ToLower(s)[i] == s[i];
  }

  /** Trimming leaves text without edge spaces unchanged. */
  lemma TrimFixesUnpadded(s: string)
    requires NoEdgeSpaces(s)
    ensures TrimSpace(s) == s
  {
    assert TrimLeft(s) == s;
    assert TrimRight(s) == s;
  }

  /** Canonical text is exactly the text that `Clean` leaves unchanged. */
  lemma CleanedFixpoint(s: string)
    ensures Cleaned(s) == s <==> IsClean(s)
  {
    if IsClean(s) {
      SanitiseFixesValid(s);
      TrimFixesUnpadded(s);
      CollapseFixesSingleSpaced(s);
    }
  }

  /** `Clean` is idempotent. */
  lemma CleanIdempotent(text: string)
    ensures Cleaned(Cleaned(text)) == Cleaned(text)
  {
    CleanedFixpoint(Cleaned(text));
  }

  /**
   * What `Clean` keeps: the words of the lower-cased, sanitised text (the
   * runs of runes between spaces), in order, joined by single spaces.
   */
  lemma CleanedIsJoinedFields(text: string)
    ensures Cleaned(text) == Join(Fields(Sanitise(ToLower(text))), ' ')
  {
    var sanitised := Sanitise(ToLower(text));
    FieldsTrimSpace(sanitised);
    FieldsCollapse(TrimSpace(sanitised));
    JoinFields(Cleaned(text));
  }

  /** Splitting non-empty clean text at spaces gives the words of the sanitised text. */
  lemma WordsAreFields(text: string)
    requires Cleaned(text) != ""
    ensures Split(Cleaned(text), ' ') == Fields(Sanitise(ToLower(text)))
  {
    var fields := Fields(Sanitise(ToLower(text)));
    CleanedIsJoinedFields(text);
    assert |fields| > 0;
    SplitJoin(fields, ' ');
  }
}
