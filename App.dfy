/**
  The computations of the public site (src/App.jsx) that the booking flow
  depends on: the smart pricing of lesson hours, the towing price, the
  custom-hours input, the postcode coverage check, the testimonial
  carousel index, and the two state updates for recently passed pupils and
  enquiries.

  `parseInt` is modelled for decimal text (`0x` prefixes are not read as
  hexadecimal); JavaScript's truncating `%` is `JsRem`.
*/
module App {
  import opened Wrappers
  import opened Text
  import opened Lists
  import opened TimeHelpers
  import opened PostcodeHelpers

  // ---------------------------------------------------------------------------
  // getSmartPricing

  const StandardRate := 35

  /** One of `specialOffers`: a block of hours sold at a fixed price. */
  datatype Offer = Offer(id: string, hours: int, price: int, savings: int)

  const SpecialOffers := [
    Offer("intro", 2, 60, 10),
    Offer("block10", 10, 340, 10),
    Offer("block20", 20, 660, 40)
  ]

  /** What `getSmartPricing` returns. */
  datatype Pricing = Pricing(price: int, standardPrice: int, savings: int, hasOffer: bool, offer: Option<Offer>)

  /** The price of `hours` hours: the matching special offer, or the standard rate. */
  function SmartPricing(hours: int): (p: Pricing)
    ensures p.standardPrice == hours * StandardRate
    ensures p.savings == p.standardPrice - p.price
    ensures p.hasOffer <==> hours == 2 || hours == 10 || hours == 20
    ensures p.hasOffer <==> p.offer.Some?
    ensures p.offer.Some? ==> p.offer.value in SpecialOffers && p.offer.value.hours == hours && p.price == p.offer.value.price
    ensures !p.hasOffer ==> p.price == p.standardPrice && p.savings == 0
  {
    var standardPrice := hours * StandardRate;
    match Find(SpecialOffers, (o: Offer) => o.hours == hours)
    case Some(offer) => Pricing(offer.price, standardPrice, standardPrice - offer.price, true, Some(offer))
    case None => Pricing(standardPrice, standardPrice, 0, false, None)
  }

  /** The offers cost 60, 340 and 660, and the savings computed agree with the savings each offer advertises. */
  lemma OfferPrices()
    ensures SmartPricing(2).price == 60 && SmartPricing(10).price == 340 && SmartPricing(20).price == 660
    ensures forall o :: o in SpecialOffers ==> SmartPricing(o.hours).savings == o.savings
  {
    assert SpecialOffers[0].hours == 2 && SpecialOffers[1].hours == 10 && SpecialOffers[2].hours == 20;
    assert SpecialOffers[0] in SpecialOffers && SpecialOffers[1] in SpecialOffers && SpecialOffers[2] in SpecialOffers;
  }

  /** An offer never costs more than the hours at the standard rate. */
  lemma OffersNeverCostMore(hours: int)
    ensures SmartPricing(hours).price <= SmartPricing(hours).standardPrice
    ensures SmartPricing(hours).savings >= 0
  {
    var p := SmartPricing(hours);
    if p.hasOffer {
      assert p.offer.value in SpecialOffers;
    }
  }

  // ---------------------------------------------------------------------------
  // towingPrice

  /** One of `towingOptions`. */
  datatype TowingOption = TowingOption(id: string, hours: int, price: int)

  const TowingOptions := [TowingOption("half", 4, 200), TowingOption("full", 8, 350)]
  const TrailerSurcharge := 50

  /**
    `towingPrice`: nothing selected (`''` or `null`) costs nothing; otherwise
    the option's price, plus the trailer surcharge when a trailer is used.
    `None` when the selected id names no option, where the lookup throws.
  */
  function TowingPrice(selected: string, useTrailer: bool): (r: Option<int>)
    ensures selected == "" ==> r == Some(0)
    ensures selected == "half" ==> r == Some(if useTrailer then 250 else 200)
    ensures selected == "full" ==> r == Some(if useTrailer then 400 else 350)
    ensures selected != "" && selected != "half" && selected != "full" ==> r.None?
  {
    if selected == "" then Some(0)
    else
      match Find(TowingOptions, (t: TowingOption) => t.id == selected)
      case Some(option) => Some(option.price + if useTrailer then TrailerSurcharge else 0)
      case None => None
  }

  // ---------------------------------------------------------------------------
  // The custom-hours input

  /** The length of the longest prefix of `s` made of characters satisfying `p`. */
  function Run(s: string, p: char -> bool): (n: nat)
    ensures n <= |s|
    ensures forall i :: 0 <= i < n ==> p(s[i])
    ensures n < |s| ==> !p(s[n])
  {
    if s == [] || !p(s[0]) then 0 else 1 + Run(s[1..], p)
  }

  /** `parseInt(s)`: leading whitespace, an optional sign, then as many digits as there are; `None` is `NaN`. */
  function ParseInt(s: string): Option<int>
  {
    var t := TrimStart(s);
    var body := if t != [] && (t[0] == '-' || t[0] == '+') then t[1..] else t;
    var n := Run(body, IsDigit);
    if n == 0 then None
    else
      var value: int := DigitsValue(body[..n]);
      Some(if t[0] == '-' then -value else value)
  }

  /** `parseInt` reads back the number `String` writes, and stops at the first character that is not a digit. */
  lemma ParseIntOfNumeral(n: nat, rest: string)
    requires rest == [] || !IsDigit(rest[0])
    ensures ParseInt(NatToString(n) + rest) == Some(n)
  {
    hide NatToString, DigitsValue, Trim, TrimEnd;
    var d := NatToString(n);
    var s := d + rest;
    assert s[0] == d[0] && !IsSpace(s[0]);
    assert TrimStart(s) == s;
    assert forall i :: 0 <= i < |d| ==> s[i] == d[i];
    assert |d| < |s| ==> s[|d|] == rest[0];
    assert Run(s, IsDigit) == |d|;
    assert s[..|d|] == d;
    NatToStringValue(n);
  }

  /** Blank text is not a number. */
  lemma ParseIntOfBlank(s: string)
    requires Blank(s)
    ensures ParseInt(s).None?
  {
    hide Trim, TrimEnd;
    assert TrimStart(s) == [];
  }

  /** `Math.max(1, Math.min(50, parseInt(text) || 1))`: `NaN` and `0` are falsy and become 1. */
  function CustomHours(text: string): (h: int)
    ensures 1 <= h <= 50
    ensures ParseInt(text).None? ==> h == 1
    ensures ParseInt(text).Some? ==>
      var k := ParseInt(text).value;
      (k <= 1 ==> h == 1) && (1 <= k <= 50 ==> h == k) && (k >= 50 ==> h == 50)
  {
    var k := match ParseInt(text) case Some(v) => if v == 0 then 1 else v case None => 1;
    Max(1, Min(50, k))
  }

  /** An empty or blank input selects one hour. */
  lemma CustomHoursOfBlank(text: string)
    requires Blank(text)
    ensures CustomHours(text) == 1
  {
    ParseIntOfBlank(text);
  }

  /** Typing any whole number of hours from 1 to 50 selects exactly that many hours. */
  lemma CustomHoursRoundTrip(n: nat)
    requires 1 <= n <= 50
    ensures CustomHours(NatToString(n)) == n
  {
    ParseIntOfNumeral(n, []);
    assert NatToString(n) + [] == NatToString(n);
  }

  // ---------------------------------------------------------------------------
  // checkPostcode

  const CoveredPostcodes := ["WR1", "WR2", "WR3", "WR4", "WR5", "WR6", "WR13", "WR14"]

  /** The match of `/^[A-Z]+\d+/`: leading capitals, then digits; `''` when there is no match. */
  function LeadingCode(s: string): (c: string)
    ensures c == [] || c <= s
    ensures c != [] <==> 0 < Run(s, IsUpper) < |s| && IsDigit(s[Run(s, IsUpper)])
    ensures c != [] ==> |c| == Run(s, IsUpper) + Run(s[Run(s, IsUpper)..], IsDigit)
  {
    var k := Run(s, IsUpper);
    var m := Run(s[k..], IsDigit);
    if k == 0 || m == 0 then [] else s[..k + m]
  }

  /** `checkPostcode`: the code at the head of the cleaned postcode starts with one of the covered districts. */
  predicate IsCovered(postcode: string)
  {
    exists i :: 0 <= i < |CoveredPostcodes| && StartsWith(LeadingCode(Normalize(postcode)), CoveredPostcodes[i])
  }

  /** Since "WR13" and "WR14" start with "WR1", coverage is "WR" followed by a digit from 1 to 6. */
  lemma IsCoveredMeaning(postcode: string)
    ensures IsCovered(postcode) <==>
      var c := LeadingCode(Normalize(postcode));
      |c| >= 3 && c[0] == 'W' && c[1] == 'R' && '1' <= c[2] <= '6'
  {
    var c := LeadingCode(Normalize(postcode));
    if |c| >= 3 && c[0] == 'W' && c[1] == 'R' && '1' <= c[2] <= '6' {
      var i := (c[2] as int) - ('1' as int);
      assert CoveredPostcodes[i] == [c[0], c[1], c[2]];
      assert StartsWith(c, CoveredPostcodes[i]);
    }
  }

  /** "WR" followed by digits only is its own code. */
  lemma CodeOfWrDigits(b: string)
    requires AllDigits(b) && b != []
    ensures LeadingCode("WR" + b) == "WR" + b
  {
    var s := "WR" + b;
    assert s[1..][1..] == b && s[2..] == b;
    assert !IsUpper(b[0]);
    assert Run(s, IsUpper) == 2;
    assert Run(b, IsDigit) == |b|;
    assert s[..|s|] == s;
  }

  /**
    The district a cleaned postcode names: the code at the head of its outward
    part. A full postcode (five characters or more) ends in the three
    characters of its inward code, which are cut off first; shorter text is
    taken as an outward code on its own.
  */
  function District(n: string): (d: string)
    ensures d == [] || d <= n
  {
    LeadingCode(if |n| >= 5 then n[..|n| - 3] else n)
  }

  /** The corrected coverage: the postcode's district is one of the listed ones. */
  predicate IsCoveredExactly(postcode: string)
  {
    District(Normalize(postcode)) in CoveredPostcodes
  }

  /** Along a longer text a run can only grow, and it stays put when it ended inside the shorter text. */
  lemma RunOfExtension(o: string, n: string, p: char -> bool)
    requires o <= n
    ensures Run(o, p) <= Run(n, p)
    ensures Run(o, p) < |o| ==> Run(n, p) == Run(o, p)
  {
  }

  /** The code at the head of a text is a prefix of the code at the head of any longer text. */
  lemma LeadingCodeOfExtension(o: string, n: string)
    requires o <= n && LeadingCode(o) != []
    ensures LeadingCode(o) <= LeadingCode(n)
  {
    var k := Run(o, IsUpper);
    RunOfExtension(o, n, IsUpper);
    assert n[k] == o[k];
    assert o[k..] <= n[k..];
    RunOfExtension(o[k..], n[k..], IsDigit);
  }

  /** Every postcode the corrected check accepts, the check as written accepts too. */
  lemma ExactCoverageIsCovered(p: string)
    ensures IsCoveredExactly(p) ==> IsCovered(p)
  {
    hide Normalize;
    if IsCoveredExactly(p) {
      var n := Normalize(p);
      var o := if |n| >= 5 then n[..|n| - 3] else n;
      var i :| 0 <= i < |CoveredPostcodes| && CoveredPostcodes[i] == LeadingCode(o);
      LeadingCodeOfExtension(o, n);
      assert StartsWith(LeadingCode(Normalize(p)), CoveredPostcodes[i]);
    }
  }

  lemma NormalizeWr1()
    ensures Normalize("WR1 1AA") == "WR11AA"
  {
    hide Normalize;
    NormalizeAroundSpace("WR1", "1AA");
    assert "WR1" + " " + "1AA" == "WR1 1AA";
    assert ToUpper("WR1") + ToUpper("1AA") == "WR1" + "1AA" == "WR11AA";
  }

  lemma NormalizeWr10()
    ensures Normalize("WR10 1AA") == "WR101AA"
  {
    hide Normalize;
    NormalizeAroundSpace("WR10", "1AA");
    assert "WR10" + " " + "1AA" == "WR10 1AA";
    assert ToUpper("WR10") + ToUpper("1AA") == "WR10" + "1AA" == "WR101AA";
  }

  /** "WR11AA" names the district "WR1"; "WR101AA" names "WR10", and its code starts with "WR1". */
  lemma DistrictsOfExamples()
    ensures District("WR11AA") == "WR1" && District("WR101AA") == "WR10"
    ensures StartsWith(LeadingCode("WR101AA"), "WR1")
  {
    hide LeadingCode;
    CodeOfWrDigits("1");
    CodeOfWrDigits("10");
    assert "WR" + "1" == "WR1" == "WR11AA"[..3];
    assert "WR" + "10" == "WR10" == "WR101AA"[..4];
    LeadingCodeOfExtension("WR1", "WR101AA");
  }

  /** A full postcode of a listed district is covered by both checks. */
  lemma CoverageOfWr1()
    ensures IsCoveredExactly("WR1 1AA") && IsCovered("WR1 1AA")
  {
    hide Normalize, LeadingCode, District;
    NormalizeWr1();
    DistrictsOfExamples();
    ExactCoverageIsCovered("WR1 1AA");
  }

  lemma Wr10NotListed()
    ensures "WR10" !in CoveredPostcodes
  {
    assert forall i :: 0 <= i < |CoveredPostcodes| ==> |CoveredPostcodes[i]| == 3 || CoveredPostcodes[i][3] != '0';
  }

  /** "WR10 1AA" is covered as written, but its district "WR10" is not one of the listed ones. */
  lemma CoverageOfWr10()
    ensures IsCovered("WR10 1AA") && !IsCoveredExactly("WR10 1AA")
  {
    hide Normalize, LeadingCode, District;
    NormalizeWr10();
    DistrictsOfExamples();
    Wr10NotListed();
    assert StartsWith(LeadingCode(Normalize("WR10 1AA")), CoveredPostcodes[0]);
  }

  // ---------------------------------------------------------------------------
  // The testimonial carousel

  /** A positive multiple of `n` is at least `n`. */
  lemma MultipleAtLeast(n: int, d: int)
    requires n > 0 && d >= 1
    ensures n * d >= n
  {
    if d > 1 {
      MultipleAtLeast(n, d - 1);
      assert n * d == n * (d - 1) + n;
    }
  }

  /** Quotient and remainder are determined by any decomposition with a remainder in [0, n). */
  lemma DivModUnique(a: int, n: int, q: int, r: int)
    requires n > 0 && 0 <= r < n && a == n * q + r
    ensures a / n == q && a % n == r
  {
    var q', r' := a / n, a % n;
    assert n * q' + r' == n * q + r;
    assert n * (q - q') == r' - r;
    if q > q' {
      MultipleAtLeast(n, q - q');
    } else if q < q' {
      assert n * (q' - q) == r - r';
      MultipleAtLeast(n, q' - q);
    }
  }

  /** `((index % n) + n) % n` with JavaScript's `%`. */
  function SafeIndex(index: int, n: int): (r: int)
    requires n > 0
    ensures 0 <= r < n
    ensures r == index % n
  {
    var inner := JsRem(index, n);
    if index >= 0 then
      DivModUnique(inner + n, n, 1, inner);
      JsRem(inner + n, n)
    else
      var k, m := (-index) / n, (-index) % n;
      if m == 0 then
        DivModUnique(n, n, 1, 0);
        DivModUnique(index, n, -k, 0);
        JsRem(inner + n, n)
      else
        DivModUnique(n - m, n, 0, n - m);
        DivModUnique(index, n, -k - 1, n - m);
        JsRem(inner + n, n)
  }

  /** `goNext` and `goPrev` step through the people and wrap around at both ends. */
  lemma SafeIndexSteps(index: int, n: int)
    requires n > 0
    ensures SafeIndex(index + 1, n) == if SafeIndex(index, n) == n - 1 then 0 else SafeIndex(index, n) + 1
    ensures SafeIndex(index - 1, n) == if SafeIndex(index, n) == 0 then n - 1 else SafeIndex(index, n) - 1
  {
    hide SafeIndex, JsRem;
    var q, r := index / n, index % n;
    if r == n - 1 {
      DivModUnique(index + 1, n, q + 1, 0);
    } else {
      DivModUnique(index + 1, n, q, r + 1);
    }
    if r == 0 {
      DivModUnique(index - 1, n, q - 1, n - 1);
    } else {
      DivModUnique(index - 1, n, q, r - 1);
    }
  }

  // ---------------------------------------------------------------------------
  // handleAddPassed and handleAddEnquiry

  /** `s.filter((_, idx) => idx !== k)` */
  function WithoutIndex<T>(s: seq<T>, k: int): (r: seq<T>)
    ensures 0 <= k < |s| ==> r == s[..k] + s[k + 1..]
    ensures !(0 <= k < |s|) ==> r == s
  {
    if s == [] then []
    else (if k == 0 then [] else [s[0]]) + WithoutIndex(s[1..], k - 1)
  }

  /** `s.map((item, idx) => idx === k ? x : item)` */
  function ReplaceIndex<T>(s: seq<T>, k: int, x: T): (r: seq<T>)
    ensures |r| == |s|
    ensures 0 <= k < |s| ==> r == s[k := x]
    ensures !(0 <= k < |s|) ==> r == s
  {
    seq(|s|, i requires 0 <= i < |s| => if i == k then x else s[i])
  }

  /** The site's lists of recently passed pupils and of enquiries. */
  class SiteState<Passed, Enquiry> {
    var recentlyPassed: seq<Passed>
    var enquiries: seq<Enquiry>

    constructor(defaultPassed: seq<Passed>)
      ensures recentlyPassed == defaultPassed && enquiries == []
    {
      recentlyPassed := defaultPassed;
      enquiries := [];
    }

    /**
      `handleAddPassed(entry, editIndex, isDelete)`: delete the entry at the
      index, replace it, or put a new entry first; `None` stands for a
      missing entry or index.
    */
    method AddPassed(entry: Option<Passed>, editIndex: Option<int>, isDelete: bool)
      modifies this`recentlyPassed
      ensures isDelete && editIndex.Some? ==>
        recentlyPassed == WithoutIndex(old(recentlyPassed), editIndex.value)
      ensures !(isDelete && editIndex.Some?) && entry.Some? && editIndex.Some? ==>
        recentlyPassed == ReplaceIndex(old(recentlyPassed), editIndex.value, entry.value)
      ensures !(isDelete && editIndex.Some?) && entry.Some? && editIndex.None? ==>
        recentlyPassed == [entry.value] + old(recentlyPassed)
      ensures !(isDelete && editIndex.Some?) && entry.None? ==> recentlyPassed == old(recentlyPassed)
    {
      if isDelete && editIndex.Some? {
        recentlyPassed := WithoutIndex(recentlyPassed, editIndex.value);
      } else if entry.Some? && editIndex.Some? {
        recentlyPassed := ReplaceIndex(recentlyPassed, editIndex.value, entry.value);
      } else if entry.Some? {
        recentlyPassed := [entry.value] + recentlyPassed;
      }
    }

    /** `handleAddEnquiry(entry)`: the new enquiry goes first. */
    method AddEnquiry(entry: Enquiry)
      modifies this`enquiries
      ensures enquiries == [entry] + old(enquiries)
    {
      enquiries := [entry] + enquiries;
    }
  }
}
