/**
  UK postcode helpers (src/utils/postcodeHelpers.js): validation against the
  postcode pattern, display formatting, and the "area" prefix the lesson
  recommender clusters by.

  Every helper first normalises its input with `toUpperCase()` followed by
  `replace(/\s/g, '')`. A falsy argument (`''`, and JavaScript's `null` and
  `undefined`, which are modelled as `''`) is answered without looking
  further.
*/
module PostcodeHelpers {
  import opened Text
  import opened Wrappers
  import opened Regex

  /** `postcode.toUpperCase().replace(/\s/g, '')` */
  function Normalize(p: string): (n: string)
    ensures NoSpace(n) && |n| <= |p|
  {
    StripSpaces(ToUpper(p))
  }

  // ---------------------------------------------------------------------------
  // Normalisation ignores whitespace and letter case

  lemma NormalizeSpaceInsensitive(a: string, c: char, b: string)
    requires IsSpace(c)
    ensures Normalize(a + [c] + b) == Normalize(a + b)
  {
    ToUpperConcat(a + [c], b);
    ToUpperConcat(a, [c]);
    ToUpperConcat(a, b);
    StripSpacesConcat(ToUpper(a) + ToUpper([c]), ToUpper(b));
    StripSpacesConcat(ToUpper(a), ToUpper([c]));
    StripSpacesConcat(ToUpper(a), ToUpper(b));
    assert ToUpper([c]) == [c];
    assert StripSpaces([c]) == [];
  }

  lemma NormalizeCaseInsensitive(p: string)
    ensures Normalize(ToUpper(p)) == Normalize(p)
    ensures Normalize(ToLower(p)) == Normalize(p)
  {
    ToUpperIdempotent(p);
    assert ToUpper(ToLower(p)) == ToUpper(p);
  }

  /** A normalised postcode is already upper case, so normalising it again changes nothing. */
  lemma NormalizeIdempotent(p: string)
    ensures ToUpper(Normalize(p)) == Normalize(p)
    ensures Normalize(Normalize(p)) == Normalize(p)
  {
    StripSpacesToUpper(ToUpper(p));
    ToUpperIdempotent(p);
    StripSpacesOfSpaceFree(Normalize(p));
  }

  // ---------------------------------------------------------------------------
  // validateUKPostcode

  /** `[A-Z]{1,2}\d{1,2}[A-Z]?`, the outward code (letters under the `i` flag). */
  const OutwardPattern: seq<Piece> :=
    [Piece(Letter, 1, Some(2)), Piece(Digit, 1, Some(2)), Piece(Letter, 0, Some(1))]

  /** `\s?\d[A-Z]{2}`, an optional space and the inward code. */
  const InwardPattern: seq<Piece> :=
    [Piece(Space, 0, Some(1)), Piece(Digit, 1, Some(1)), Piece(Letter, 2, Some(2))]

  /** `/^[A-Z]{1,2}\d{1,2}[A-Z]?\s?\d[A-Z]{2}$/i` */
  const PostcodePattern: seq<Piece> := OutwardPattern + InwardPattern

  /** `validateUKPostcode(postcode)` */
  predicate ValidateUKPostcode(p: string)
  {
    p != "" && Test(PostcodePattern, Normalize(p))
  }

  /**
    An outward code: its leading run of letters has one or two of them, the
    run of digits after it one or two, and at most one letter follows.
  */
  predicate OutwardShape(o: string)
  {
    var letters := ClassRun(Letter, o);
    var digits := ClassRun(Digit, o[letters..]);
    && 1 <= letters <= 2 && 1 <= digits <= 2
    && |o| <= letters + digits + 1 && AllIn(Letter, o[letters + digits..])
  }

  /** A postcode written without spaces: an outward code, then a digit and two letters. */
  predicate PostcodeShape(s: string)
  {
    var k := |s| - 3;
    |s| >= 5 && IsDigit(s[k]) && IsLetter(s[k + 1]) && IsLetter(s[k + 2]) && OutwardShape(s[..k])
  }

  lemma OutwardSplits(o: string)
    ensures Splits(OutwardPattern, o) <==> OutwardShape(o)
  {
    if Splits(OutwardPattern, o) {
      OutwardSplitsShape(o);
    }
    if OutwardShape(o) {
      OutwardShapeSplits(o);
    }
  }

  lemma OutwardSplitsShape(o: string)
    requires Splits(OutwardPattern, o)
    ensures OutwardShape(o)
  {
    hide Splits, ClassRun;
    var p0, p1, p2 := OutwardPattern[0], OutwardPattern[1], OutwardPattern[2];
    assert OutwardPattern == [p0] + [p1, p2] && [p1, p2] == [p1] + [p2];
    SplitsCons(p0, [p1, p2], o);
    var k0 :| 0 <= k0 <= |o| && CountAllowed(p0, k0) && AllIn(Letter, o[..k0]) && Splits([p1, p2], o[k0..]);
    var t := o[k0..];
    SplitsCons(p1, [p2], t);
    var k1 :| 0 <= k1 <= |t| && CountAllowed(p1, k1) && AllIn(Digit, t[..k1]) && Splits([p2], t[k1..]);
    SplitsOne(p2, t[k1..]);
    assert t[..k1][0] == o[k0];
    ClassRunExact(Letter, o, k0);
    if k1 < |t| {
      assert t[k1..][0] == t[k1];
    }
    ClassRunExact(Digit, t, k1);
    assert o[k0 + k1..] == t[k1..];
  }

  lemma OutwardShapeSplits(o: string)
    requires OutwardShape(o)
    ensures Splits(OutwardPattern, o)
  {
    hide Splits, ClassRun;
    var p0, p1, p2 := OutwardPattern[0], OutwardPattern[1], OutwardPattern[2];
    assert OutwardPattern == [p0] + [p1, p2] && [p1, p2] == [p1] + [p2];
    var k0 := ClassRun(Letter, o);
    var t := o[k0..];
    var k1 := ClassRun(Digit, t);
    assert o[k0 + k1..] == t[k1..];
    SplitsOne(p2, t[k1..]);
    SplitsCons(p1, [p2], t);
    SplitsCons(p0, [p1, p2], o);
  }

  lemma InwardSplits(t: string)
    requires NoSpace(t)
    ensures Splits(InwardPattern, t) <==> |t| == 3 && IsDigit(t[0]) && IsLetter(t[1]) && IsLetter(t[2])
  {
    hide Splits;
    var p3, p4, p5 := InwardPattern[0], InwardPattern[1], InwardPattern[2];
    assert InwardPattern == [p3] + [p4, p5] && [p4, p5] == [p4] + [p5];
    SplitsCons(p3, [p4, p5], t);
    if Splits(InwardPattern, t) {
      var k0 :| 0 <= k0 <= |t| && CountAllowed(p3, k0) && AllIn(Space, t[..k0]) && Splits([p4, p5], t[k0..]);
      assert k0 == 0 && t[k0..] == t;
      SplitsCons(p4, [p5], t);
      var k1 :| 0 <= k1 <= |t| && CountAllowed(p4, k1) && AllIn(Digit, t[..k1]) && Splits([p5], t[k1..]);
      SplitsOne(p5, t[k1..]);
      assert t[..1][0] == t[0] && t[1..][0] == t[1] && t[1..][1] == t[2];
    }
    if |t| == 3 && IsDigit(t[0]) && IsLetter(t[1]) && IsLetter(t[2]) {
      SplitsOne(p5, t[1..]);
      assert AllIn(Digit, t[..1]);
      SplitsCons(p4, [p5], t);
      assert t[..0] == [] && t[0..] == t;
    }
  }

  /** An outward code has two to five characters. */
  lemma OutwardShapeLength(o: string)
    requires OutwardShape(o)
    ensures 2 <= |o| <= 5
  {
  }

  /** The pattern accepts exactly the postcode shapes, for strings without whitespace. */
  lemma PostcodeSplits(s: string)
    requires NoSpace(s)
    ensures Splits(PostcodePattern, s) <==> PostcodeShape(s)
  {
    hide Splits, OutwardShape, IsLetter, IsDigit;
    assert PostcodePattern == OutwardPattern + InwardPattern;
    SplitsAppend(OutwardPattern, InwardPattern, s);
    if Splits(PostcodePattern, s) {
      var k :| 0 <= k <= |s| && Splits(OutwardPattern, s[..k]) && Splits(InwardPattern, s[k..]);
      InwardSplits(s[k..]);
      OutwardSplits(s[..k]);
      OutwardShapeLength(s[..k]);
      assert k == |s| - 3;
      assert s[k..][0] == s[k] && s[k..][1] == s[k + 1] && s[k..][2] == s[k + 2];
    }
    if PostcodeShape(s) {
      var k := |s| - 3;
      assert s[k..][0] == s[k] && s[k..][1] == s[k + 1] && s[k..][2] == s[k + 2];
      InwardSplits(s[k..]);
      OutwardSplits(s[..k]);
      SplitsAppendJoin(OutwardPattern, InwardPattern, s, k);
    }
  }

  /**
    `validateUKPostcode` accepts a postcode exactly when, upper-cased and with
    whitespace removed, it has the shape of a UK postcode.
  */
  lemma ValidateUKPostcodeShape(p: string)
    ensures ValidateUKPostcode(p) <==> PostcodeShape(Normalize(p))
  {
    FirstMatchSplits(PostcodePattern, Normalize(p));
    PostcodeSplits(Normalize(p));
  }

  /** Accepted postcodes are five to eight characters long once spaces are removed. */
  lemma ValidPostcodeLength(p: string)
    requires ValidateUKPostcode(p)
    ensures 5 <= |Normalize(p)| <= 8
  {
    ValidateUKPostcodeShape(p);
  }

  lemma ValidateRejectsEmpty()
    ensures !ValidateUKPostcode("")
  {
  }

  /** Inserting whitespace anywhere does not change the verdict. */
  lemma ValidateSpaceInsensitive(a: string, c: char, b: string)
    requires IsSpace(c)
    ensures ValidateUKPostcode(a + [c] + b) == ValidateUKPostcode(a + b)
  {
    NormalizeSpaceInsensitive(a, c, b);
    ValidateUKPostcodeShape(a + [c] + b);
    ValidateUKPostcodeShape(a + b);
  }

  /** Letter case does not change the verdict. */
  lemma ValidateCaseInsensitive(p: string)
    ensures ValidateUKPostcode(ToUpper(p)) == ValidateUKPostcode(p)
    ensures ValidateUKPostcode(ToLower(p)) == ValidateUKPostcode(p)
  {
    NormalizeCaseInsensitive(p);
    ValidateUKPostcodeShape(p);
    ValidateUKPostcodeShape(ToUpper(p));
    ValidateUKPostcodeShape(ToLower(p));
  }

  // ---------------------------------------------------------------------------
  // formatPostcode

  /** `formatPostcode(postcode)`: the normalised postcode, with a space before the inward code when longer than five. */
  function FormatPostcode(p: string): string
  {
    if p == "" then ""
    else
      var n := Normalize(p);
      if |n| <= 5 then n else n[..|n| - 3] + " " + n[|n| - 3..]
  }

  /**
    Without its spaces the formatted postcode is the normalised input; it is
    returned as is up to five characters, and otherwise holds exactly one space,
    the fourth character from the end.
  */
  lemma FormatPostcodeSpaces(p: string)
    ensures StripSpaces(FormatPostcode(p)) == Normalize(p)
    ensures |Normalize(p)| <= 5 ==> FormatPostcode(p) == Normalize(p)
    ensures |Normalize(p)| > 5 ==>
              var f := FormatPostcode(p);
              |f| == |Normalize(p)| + 1 && f[|f| - 4] == ' ' && NoSpace(f[..|f| - 4]) && NoSpace(f[|f| - 3..])
  {
    hide Normalize, ToUpper, StripSpaces;
    var n := Normalize(p);
    if p == "" {
      StripSpacesOfSpaceFree(n);
    } else if |n| <= 5 {
      StripSpacesOfSpaceFree(n);
    } else {
      InsertSpace(n, |n| - 3);
    }
  }

  /** A space inserted into a space-free string is the only one, and stripping it undoes the insertion. */
  lemma InsertSpace(n: string, k: nat)
    requires NoSpace(n) && k <= |n|
    ensures var f := n[..k] + " " + n[k..];
              StripSpaces(f) == n && |f| == |n| + 1 && f[k] == ' ' && f[..k] == n[..k] && f[k + 1..] == n[k..]
  {
    var f := n[..k] + " " + n[k..];
    StripSpacesConcat(n[..k] + " ", n[k..]);
    StripSpacesConcat(n[..k], " ");
    StripSpacesOfSpaceFree(n[..k]);
    StripSpacesOfSpaceFree(n[k..]);
    assert n[..k] + n[k..] == n;
    assert f[..k] == n[..k] && f[k + 1..] == n[k..];
  }

  /** Normalising a formatted postcode gives the normalised input back. */
  lemma NormalizeFormatPostcode(p: string)
    ensures Normalize(FormatPostcode(p)) == Normalize(p)
  {
    hide ToUpper, StripSpaces, FormatPostcode;
    NormalizeIdempotent(p);
    FormatPostcodeSpaces(p);
    StripSpacesToUpper(FormatPostcode(p));
  }

  /** Formatting twice is formatting once. */
  lemma FormatPostcodeIdempotent(p: string)
    ensures FormatPostcode(FormatPostcode(p)) == FormatPostcode(p)
  {
    NormalizeFormatPostcode(p);
    var n := Normalize(p);
    if FormatPostcode(p) == "" {
    } else if |n| > 5 {
      assert FormatPostcode(p) == n[..|n| - 3] + " " + n[|n| - 3..];
    }
  }

  /** Formatting does not change whether a postcode is valid. */
  lemma FormatPostcodeKeepsValidity(p: string)
    ensures ValidateUKPostcode(FormatPostcode(p)) == ValidateUKPostcode(p)
  {
    NormalizeFormatPostcode(p);
    ValidateUKPostcodeShape(p);
    ValidateUKPostcodeShape(FormatPostcode(p));
  }

  // ---------------------------------------------------------------------------
  // getPostcodeArea and postcodesAreSimilar

  /** `/^[A-Z]{1,2}\d{1,2}/`, without the `i` flag and without an end anchor. */
  const AreaPattern: seq<Piece> := [Piece(Upper, 1, Some(2)), Piece(Digit, 1, Some(2))]

  /** `getPostcodeArea(postcode)`: the text `match` finds at the start of the normalised postcode, or `''`. */
  function GetPostcodeArea(p: string): string
  {
    if p == "" then ""
    else
      var n := Normalize(p);
      match FirstMatch(AreaPattern, n, false)
      case Some(len) => n[..len]
      case None => ""
  }

  /**
    The area read off directly: up to two leading capitals, then up to two
    digits; empty unless there is at least one of each.
  */
  function AreaOf(n: string): (r: string)
    ensures r <= n
    ensures r == "" || 2 <= |r| <= 4
  {
    var letters := Min(ClassRun(Upper, n), 2);
    var digits := Min(ClassRun(Digit, n[letters..]), 2);
    if letters >= 1 && digits >= 1 then n[..letters + digits] else ""
  }

  /** The greedy backtracking match is the run-length reading of the area. */
  lemma GetPostcodeAreaIsAreaOf(p: string)
    ensures GetPostcodeArea(p) == AreaOf(Normalize(p))
  {
    if p == "" {
      NormalizeEmpty();
    } else {
      AreaMatch(Normalize(p));
    }
  }

  lemma NormalizeEmpty()
    ensures Normalize("") == ""
  {
  }

  /** The first match of `\d{1,2}`: the leading digits, at most two, if there is one. */
  lemma DistrictMatch(t: string)
    ensures var d := Min(ClassRun(Digit, t), 2);
            FirstMatch([AreaPattern[1]], t, false) == if d >= 1 then Some(d) else None
  {
    var p1 := AreaPattern[1];
    var d := Greediest(p1, t);
    assert d == Min(ClassRun(Digit, t), 2);
    assert FirstMatch([p1], t, false) == TryCounts([p1], t, false, d);
    if d >= 1 {
      assert [p1][1..] == [];
      assert FirstMatch([], t[d..], false) == Some(0);
    }
  }

  lemma AreaMatch(n: string)
    ensures (match FirstMatch(AreaPattern, n, false) case Some(len) => n[..len] case None => "") == AreaOf(n)
  {
    var p0, p1 := AreaPattern[0], AreaPattern[1];
    assert AreaPattern[1..] == [p1];
    var letters := Min(ClassRun(Upper, n), 2);
    assert Greediest(p0, n) == letters;
    DistrictMatch(n[letters..]);
    if letters == 2 {
      // backtracking to a single capital leaves a capital where a digit is needed
      assert n[..2][1] == n[1] && n[1..][0] == n[1];
      assert ClassRun(Digit, n[1..]) == 0;
      DistrictMatch(n[1..]);
    }
  }

  /** The area is a prefix of the normalised postcode, of length 0 or 2 to 4. */
  lemma GetPostcodeAreaPrefix(p: string)
    ensures GetPostcodeArea(p) <= Normalize(p)
    ensures GetPostcodeArea(p) == "" || 2 <= |GetPostcodeArea(p)| <= 4
  {
    GetPostcodeAreaIsAreaOf(p);
  }

  /** Normalising a postcode written with one space. */
  lemma NormalizeAroundSpace(a: string, b: string)
    requires NoSpace(a) && NoSpace(b)
    ensures Normalize(a + " " + b) == ToUpper(a) + ToUpper(b)
  {
    NormalizeSpaceInsensitive(a, ' ', b);
    ToUpperConcat(a, b);
    ToUpperNoSpace(a + b);
    StripSpacesOfSpaceFree(ToUpper(a + b));
  }

  /**
    Whitespace is removed before matching, so for a postcode written
    `AA9 9AA` the area takes the sector digit too: `getPostcodeArea('WR6 6HU')`
    is `'WR66'`, not the district `'WR6'`.
  */
  lemma AreaRunsIntoSector(o: string, i: string)
    requires |o| == 3 && IsLetter(o[0]) && IsLetter(o[1]) && IsDigit(o[2])
    requires |i| == 3 && IsDigit(i[0]) && IsLetter(i[1]) && !IsSpace(i[2])
    ensures GetPostcodeArea(o + " " + i) == ToUpper(o) + [i[0]]
  {
    hide Normalize, GetPostcodeArea, ToUpper, AreaOf;
    NormalizeAroundSpace(o, i);
    GetPostcodeAreaIsAreaOf(o + " " + i);
    var n := ToUpper(o) + ToUpper(i);
    AreaOfTwoLettersTwoDigits(n);
    assert n[..4] == ToUpper(o) + [i[0]];
  }

  lemma AreaOfTwoLettersTwoDigits(n: string)
    requires |n| >= 5 && IsUpper(n[0]) && IsUpper(n[1]) && IsDigit(n[2]) && IsDigit(n[3]) && !IsDigit(n[4])
    ensures AreaOf(n) == n[..4]
  {
    hide ClassRun;
    assert n[..2] == [n[0], n[1]];
    ClassRunExact(Upper, n, 2);
    assert n[2..][..2] == [n[2], n[3]] && n[2..][2] == n[4];
    ClassRunExact(Digit, n[2..], 2);
  }

  lemma GetPostcodeAreaExamples()
    ensures GetPostcodeArea("wr6 6hu") == "WR66"
    ensures GetPostcodeArea("invalid") == ""
  {
    hide GetPostcodeArea, Normalize, ToUpper, StripSpaces, ClassRun, AreaOf;
    AreaRunsIntoSector("wr6", "6hu");
    assert "wr6" + " " + "6hu" == "wr6 6hu";
    assert ToUpper("wr6") == "WR6";
    NormalizeSpaceFree("invalid");
    GetPostcodeAreaIsAreaOf("invalid");
    NoAreaWithoutDistrict(ToUpper("invalid"));
  }

  lemma NormalizeSpaceFree(s: string)
    requires NoSpace(s)
    ensures Normalize(s) == ToUpper(s)
  {
    ToUpperNoSpace(s);
    StripSpacesOfSpaceFree(ToUpper(s));
  }

  /** Two capitals not followed by a digit leave no area. */
  lemma NoAreaWithoutDistrict(n: string)
    requires |n| >= 3 && IsUpper(n[0]) && IsUpper(n[1]) && !IsDigit(n[2])
    ensures AreaOf(n) == ""
  {
    hide ClassRun;
    assert n[..2] == [n[0], n[1]];
    ClassRunMaximal(Upper, n, 2);
    assert n[2..][0] == n[2];
    ClassRunExact(Digit, n[2..], 0);
  }

  /** `postcodesAreSimilar(a, b)`: both areas are equal and non-empty. */
  predicate PostcodesAreSimilar(p1: string, p2: string)
  {
    var a1 := GetPostcodeArea(p1);
    var a2 := GetPostcodeArea(p2);
    a1 == a2 && a1 != ""
  }

  lemma PostcodesAreSimilarSymmetric(p1: string, p2: string)
    ensures PostcodesAreSimilar(p1, p2) == PostcodesAreSimilar(p2, p1)
  {
  }

  /** A postcode without an area is similar to nothing, not even to another such postcode. */
  lemma UnparseableNeverSimilar(p1: string, p2: string)
    requires GetPostcodeArea(p1) == ""
    ensures !PostcodesAreSimilar(p1, p2) && !PostcodesAreSimilar(p2, p1)
  {
  }

  /** Similarity is an equivalence on the postcodes that have an area. */
  lemma PostcodesAreSimilarTransitive(p1: string, p2: string, p3: string)
    requires PostcodesAreSimilar(p1, p2) && PostcodesAreSimilar(p2, p3)
    ensures PostcodesAreSimilar(p1, p3)
  {
  }

  /** Two postcodes of the same district but different sectors are not similar, because the areas run into the sector digit. */
  lemma SameDistrictDifferentSector()
    ensures !PostcodesAreSimilar("WR6 6HU", "WR6 5AB")
  {
    hide GetPostcodeArea, ToUpper;
    AreaRunsIntoSector("WR6", "6HU");
    AreaRunsIntoSector("WR6", "5AB");
    assert "WR6" + " " + "6HU" == "WR6 6HU" && "WR6" + " " + "5AB" == "WR6 5AB";
    assert (ToUpper("WR6") + ['6'])[3] != (ToUpper("WR6") + ['5'])[3];
  }
}
