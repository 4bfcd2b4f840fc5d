/** The availability map page (main.js): one brand at a time is chosen on
    the clockface; the ZIP polygons are then painted by that brand's service
    status, and the brand's report lists its available and unavailable ZIPs
    side by side. The availability table is given; how it is built is not
    part of this model. */
module AvailabilityView {
  import opened Results
  import opened JsText
  import opened ZipCodes

  // ----- Brands -----

  /** The four brands of `BRAND_META`. */
  datatype Brand = Hwc | Mse | Msq | Tca

  /** The key of a brand in `BRAND_META` and in the availability table. */
  function BrandId(b: Brand): string {
    match b
    case Hwc => "hwc"
    case Mse => "mse"
    case Msq => "msq"
    case Tca => "tca"
  }

  /** Each brand has its own key. */
  lemma BrandIdInjective(a: Brand, b: Brand)
    ensures BrandId(a) == BrandId(b) <==> a == b
  {
    if a != b {
      assert BrandId(a)[..2] != BrandId(b)[..2] || BrandId(a)[2] != BrandId(b)[2];
    }
  }

  /** `availabilityData`: per brand, the status of each ZIP it lists. */
  type Table = map<Brand, map<Zip, string>>

  /** `availabilityData[brand][zip]`; `None` is `undefined`. A layer whose
      ZIP is not five digits has no entry. */
  function Lookup(table: Table, brand: Brand, zip: string): (r: Option<string>)
    ensures r.Some? <==> brand in table && IsZip(zip) && zip in table[brand]
    ensures r.Some? ==> r.value == table[brand][zip]
  {
    if brand in table && IsZip(zip) then
      var z: Zip := zip;
      if z in table[brand] then Some(table[brand][z]) else None
    else None
  }

  // ----- The brand toggle -----

  /** `activateBrand(b)` on `activeBrand`: choosing the active brand again
      clears the choice; choosing any other brand makes it active. */
  function Toggle(active: Option<Brand>, b: Brand): Option<Brand> {
    if active == Some(b) then None else Some(b)
  }

  /** From no choice, choosing a brand twice ends with no choice; a brand,
      once chosen, is active; the active brand chosen again is cleared. */
  lemma ToggleProperties(active: Option<Brand>, b: Brand)
    ensures Toggle(Toggle(None, b), b) == None
    ensures active != Some(b) ==> Toggle(active, b) == Some(b)
    ensures Toggle(Some(b), b) == None
    ensures Toggle(active, b) == None <==> active == Some(b)
  {
  }

  // ----- Styles -----

  /** The options `setStyle` receives. `fillColor` is absent from the
      default style. */
  datatype Style = Style(color: string, weight: nat, fillColor: Option<string>, fillOpacity: real)

  /** `defaultZipStyle()`: grey outline, no fill. */
  const DefaultStyle: Style := Style("#888", 1, None, 0.0)

  /** A ZIP where the brand is available: green fill. */
  const AvailableStyle: Style := Style("#535353", 1, Some("#4caf50"), 0.35)

  /** A ZIP with any other status: red fill. */
  const OtherStatusStyle: Style := Style("#535353", 1, Some("#e53935"), 0.35)

  /** The three cases `paintZipAvailability` tells apart. */
  datatype StatusClass = NoStatus | Available | OtherStatus

  /** Missing and empty statuses are falsy; `"available"` is compared
      exactly. */
  function Classify(status: Option<string>): (c: StatusClass)
    ensures c == NoStatus <==> status.None? || status.value == ""
    ensures c == Available <==> status == Some("available")
  {
    if status.None? || status.value == "" then NoStatus
    else if status.value == "available" then Available
    else OtherStatus
  }

  function StyleFor(c: StatusClass): Style {
    match c
    case NoStatus => DefaultStyle
    case Available => AvailableStyle
    case OtherStatus => OtherStatusStyle
  }

  /** The status class can be read back from the style: the three styles
      differ. */
  function ClassOfStyle(s: Style): StatusClass {
    if s.fillColor.None? then NoStatus
    else if s.fillColor == Some("#4caf50") then Available
    else OtherStatus
  }

  lemma StyleForRoundTrip(c: StatusClass)
    ensures ClassOfStyle(StyleFor(c)) == c
  {
    assert "#e53935"[1] != "#4caf50"[1];
  }

  /** The style a layer gets for its ZIP: it depends on the table, the
      brand and that ZIP only. */
  function ZipStyle(table: Table, brand: Brand, zip: string): (s: Style)
    ensures ClassOfStyle(s) == Classify(Lookup(table, brand, zip))
  {
    StyleRoundTripAll();
    StyleFor(Classify(Lookup(table, brand, zip)))
  }

  lemma StyleRoundTripAll()
    ensures forall c :: ClassOfStyle(StyleFor(c)) == c
  {
    forall c: StatusClass ensures ClassOfStyle(StyleFor(c)) == c {
      StyleForRoundTrip(c);
    }
  }

  /** The three outcomes as the page shows them. */
  lemma ZipStyleCases(table: Table, brand: Brand, zip: string)
    ensures var st := Lookup(table, brand, zip);
      (st.None? || st.value == "" ==>
        ZipStyle(table, brand, zip).color == "#888" && ZipStyle(table, brand, zip).fillOpacity == 0.0)
      && (st == Some("available") ==>
        ZipStyle(table, brand, zip).fillColor == Some("#4caf50") && ZipStyle(table, brand, zip).fillOpacity == 0.35)
      && (st.Some? && st.value != "" && st.value != "available" ==>
        ZipStyle(table, brand, zip).fillColor == Some("#e53935") && ZipStyle(table, brand, zip).fillOpacity == 0.35)
  {
  }

  /** What `paintZipAvailability` leaves on the layers: nothing changes
      without a ZIP layer, an active brand, or a table entry for it;
      otherwise each layer shows the style of its own ZIP. */
  function Painted(table: Table, active: Option<Brand>, hasZipLayer: bool,
                   layerZips: seq<string>, styles: seq<Style>): (r: seq<Style>)
    requires |styles| == |layerZips|
    ensures |r| == |layerZips|
  {
    if !hasZipLayer || active.None? || active.value !in table then styles
    else seq(|layerZips|, k requires 0 <= k < |layerZips| => ZipStyle(table, active.value, layerZips[k]))
  }

  /** Painting twice is painting once. */
  lemma PaintedIdempotent(table: Table, active: Option<Brand>, hasZipLayer: bool,
                          layerZips: seq<string>, styles: seq<Style>)
    requires |styles| == |layerZips|
    ensures Painted(table, active, hasZipLayer, layerZips, Painted(table, active, hasZipLayer, layerZips, styles))
      == Painted(table, active, hasZipLayer, layerZips, styles)
  {
  }

  /** Layers with the same ZIP are painted alike, and each layer's style is
      read back as its ZIP's status class. */
  lemma PaintedPerZip(table: Table, b: Brand, hasZipLayer: bool,
                      layerZips: seq<string>, styles: seq<Style>, i: nat, j: nat)
    requires |styles| == |layerZips| && hasZipLayer && b in table
    requires i < |layerZips| && j < |layerZips| && layerZips[i] == layerZips[j]
    ensures Painted(table, Some(b), hasZipLayer, layerZips, styles)[i]
      == Painted(table, Some(b), hasZipLayer, layerZips, styles)[j]
    ensures ClassOfStyle(Painted(table, Some(b), hasZipLayer, layerZips, styles)[i])
      == Classify(Lookup(table, b, layerZips[i]))
  {
  }

  /** The page state the painting and the toggle act on: the loaded table,
      the ZIP layer (absent until its GeoJSON has loaded), the ZIP of each
      of its polygons, the chosen brand and each polygon's current style. */
  class ZipMapView {
    const table: Table
    const hasZipLayer: bool
    const layerZips: seq<string>
    var activeBrand: Option<Brand>
    var styles: seq<Style>

    ghost predicate Valid()
      reads this
    {
      |styles| == |layerZips|
    }

    /** The page after loading: no brand chosen, every polygon in the
        default style `L.geoJSON` was given. */
    constructor(table: Table, hasZipLayer: bool, layerZips: seq<string>)
      ensures Valid()
      ensures this.table == table && this.hasZipLayer == hasZipLayer && this.layerZips == layerZips
      ensures activeBrand == None
      ensures styles == seq(|layerZips|, k => DefaultStyle)
    {
      this.table := table;
      this.hasZipLayer := hasZipLayer;
      this.layerZips := layerZips;
      activeBrand := None;
      styles := seq(|layerZips|, k => DefaultStyle);
    }

    /** `paintZipAvailability`. */
    method PaintZipAvailability()
      requires Valid()
      modifies this
      ensures Valid()
      ensures activeBrand == old(activeBrand)
      ensures styles == Painted(table, activeBrand, hasZipLayer, layerZips, old(styles))
    {
      if !hasZipLayer || activeBrand.None? || activeBrand.value !in table {
        return;
      }
      var b := activeBrand.value;
      var i := 0;
      while i < |layerZips|
        invariant 0 <= i <= |layerZips|
        invariant |styles| == |layerZips|
        invariant activeBrand == old(activeBrand)
        invariant forall k :: 0 <= k < i ==> styles[k] == ZipStyle(table, b, layerZips[k])
        invariant forall k :: i <= k < |styles| ==> styles[k] == old(styles)[k]
      {
        styles := styles[i := ZipStyle(table, b, layerZips[i])];
        i := i + 1;
      }
    }

    /** `resetZipStyles`: every polygon back to the default style. */
    method ResetZipStyles()
      requires Valid()
      modifies this
      ensures Valid()
      ensures activeBrand == old(activeBrand)
      ensures styles == if hasZipLayer then seq(|layerZips|, k => DefaultStyle) else old(styles)
    {
      if !hasZipLayer {
        return;
      }
      var i := 0;
      while i < |layerZips|
        invariant 0 <= i <= |layerZips|
        invariant |styles| == |layerZips|
        invariant activeBrand == old(activeBrand)
        invariant forall k :: 0 <= k < i ==> styles[k] == DefaultStyle
        invariant forall k :: i <= k < |styles| ==> styles[k] == old(styles)[k]
      {
        styles := styles[i := DefaultStyle];
        i := i + 1;
      }
    }

    /** `activateBrand`: toggles the choice, then clears or repaints the
        polygons. */
    method ActivateBrand(b: Brand)
      requires Valid()
      modifies this
      ensures Valid()
      ensures activeBrand == Toggle(old(activeBrand), b)
      ensures activeBrand.None? ==>
        styles == if hasZipLayer then seq(|layerZips|, k => DefaultStyle) else old(styles)
      ensures activeBrand.Some? ==>
        styles == Painted(table, Some(b), hasZipLayer, layerZips, old(styles))
    {
      if activeBrand == Some(b) {
        activeBrand := None;
        ResetZipStyles();
        return;
      }
      activeBrand := Some(b);
      PaintZipAvailability();
    }
  }

  // ----- The brand report -----

  /** `availabilityData?.[brandId] || {}`. */
  function BrandMap(table: Table, b: Brand): map<Zip, string> {
    if b in table then table[b] else map[]
  }

  /** The ZIPs whose status is exactly `status`. */
  function KeysWith(m: map<Zip, string>, status: string): set<Zip> {
    set z | z in m && m[z] == status
  }

  /** The ZIPs of `keys` whose status is `status`, collected one key at a
      time in the order `forEach` visits them. */
  method CollectStatus(m: map<Zip, string>) returns (available: seq<Zip>, unavailable: seq<Zip>)
    ensures Distinct(available) && Distinct(unavailable)
    ensures forall z :: z in available <==> z in KeysWith(m, "available")
    ensures forall z :: z in unavailable <==> z in KeysWith(m, "unavailable")
  {
    available, unavailable := [], [];
    var keys := m.Keys;
    while keys != {}
      invariant keys <= m.Keys
      invariant Distinct(available) && Distinct(unavailable)
      invariant forall z :: z in available <==> z in m.Keys - keys && m[z] == "available"
      invariant forall z :: z in unavailable <==> z in m.Keys - keys && m[z] == "unavailable"
      decreases |keys|
    {
      var zip :| zip in keys;
      assert zip !in available && zip !in unavailable;
      var status := m[zip];
      if status == "available" {
        available := available + [zip];
      } else if status == "unavailable" {
        unavailable := unavailable + [zip];
      }
      keys := keys - {zip};
    }
  }

  /** `getZipListsForBrand`: the brand's available and unavailable ZIPs,
      each list in ascending numeric order. */
  method GetZipListsForBrand(table: Table, b: Brand) returns (available: seq<Zip>, unavailable: seq<Zip>)
    ensures Increasing(available) && Increasing(unavailable)
    ensures forall z :: z in available <==> z in KeysWith(BrandMap(table, b), "available")
    ensures forall z :: z in unavailable <==> z in KeysWith(BrandMap(table, b), "unavailable")
  {
    var brandMap := BrandMap(table, b);
    var av, un := CollectStatus(brandMap);
    SortedDistinct(av);
    SortedDistinct(un);
    available := SortZips(av);
    unavailable := SortZips(un);
  }

  /** The two lists share no ZIP, ZIPs with any other status are in
      neither, a brand without entries has two empty lists, and each list
      is the only increasing list of its ZIPs. */
  lemma ZipListsProperties(table: Table, b: Brand, available: seq<Zip>, unavailable: seq<Zip>, z: Zip)
    requires Increasing(available) && Increasing(unavailable)
    requires forall y :: y in available <==> y in KeysWith(BrandMap(table, b), "available")
    requires forall y :: y in unavailable <==> y in KeysWith(BrandMap(table, b), "unavailable")
    ensures !(z in available && z in unavailable)
    ensures (z in BrandMap(table, b) && BrandMap(table, b)[z] != "available"
      && BrandMap(table, b)[z] != "unavailable") ==> z !in available && z !in unavailable
    ensures b !in table ==> available == [] && unavailable == []
    ensures BrandMap(table, b) == map[] ==> available == [] && unavailable == []
    ensures forall s: seq<Zip> :: Increasing(s) && (forall y :: y in s <==> y in available) ==> s == available
  {
    if b !in table || BrandMap(table, b) == map[] {
      EmptyIffNoMembers(available);
      EmptyIffNoMembers(unavailable);
    }
    forall s: seq<Zip> | Increasing(s) && (forall y :: y in s <==> y in available) ensures s == available {
      IncreasingUnique(s, available);
    }
  }

  /** A brand listing 43201 and 43123 as available and 43085 as
      unavailable gets the lists [43123, 43201] and [43085]. */
  lemma ReportListsExample(a: Zip, b: Zip, c: Zip, m: map<Zip, string>,
                           available: seq<Zip>, unavailable: seq<Zip>)
    requires a == "43201" && b == "43085" && c == "43123"
    requires m == map[a := "available", b := "unavailable", c := "available"]
    requires Increasing(available) && forall y :: y in available <==> y in KeysWith(m, "available")
    requires Increasing(unavailable) && forall y :: y in unavailable <==> y in KeysWith(m, "unavailable")
    ensures available == [c, a] && unavailable == [b]
  {
    assert a != b && a != c && b != c by {
      assert a[2] != b[2] && a[2] != c[2] && b[2] != c[2];
    }
    assert LexLess(c[2..], a[2..]) by {
      assert c[2..][0] == '1' && a[2..][0] == '2';
    }
    assert c[2..] == c[1..][1..] && a[2..] == a[1..][1..];
    assert LexLess(c, a);
    ZipOrderAgrees(c, a);
    assert Increasing([c, a]);
    assert KeysWith(m, "available") == {a, c};
    assert KeysWith(m, "unavailable") == {b};
    IncreasingUnique(available, [c, a]);
    IncreasingUnique(unavailable, [b]);
  }

  /** One line of the report: an available ZIP on the left, an unavailable
      ZIP on the right, either side possibly blank. */
  datatype Row = Row(left: Option<Zip>, right: Option<Zip>)

  function Cell(s: seq<Zip>, k: nat): Option<Zip> {
    if k < |s| then Some(s[k]) else None
  }

  /** Row `k` pairs the `k`-th entries of both lists. */
  function Rows(available: seq<Zip>, unavailable: seq<Zip>, n: nat): (rows: seq<Row>)
    ensures |rows| == n
  {
    seq(n, k requires 0 <= k < n => Row(Cell(available, k), Cell(unavailable, k)))
  }

  /** The two-column loop of `generateBrandPdf`: it runs until both lists
      are printed, advancing each list by one per row while it lasts. */
  method PairRows(available: seq<Zip>, unavailable: seq<Zip>) returns (rows: seq<Row>)
    ensures rows == Rows(available, unavailable, Max(|available|, |unavailable|))
  {
    rows := [];
    var i, j := 0, 0;
    while i < |available| || j < |unavailable|
      invariant i == Min(|rows|, |available|) && j == Min(|rows|, |unavailable|)
      invariant |rows| <= Max(|available|, |unavailable|)
      invariant rows == Rows(available, unavailable, |rows|)
      decreases |available| + |unavailable| - i - j
    {
      var left, right := None, None;
      if i < |available| {
        left := Some(available[i]);
        i := i + 1;
      }
      if j < |unavailable| {
        right := Some(unavailable[j]);
        j := j + 1;
      }
      rows := rows + [Row(left, right)];
    }
  }

  /** The filled cells of a column, top to bottom. */
  function Lefts(rows: seq<Row>): seq<Zip> {
    if rows == [] then []
    else Lefts(rows[..|rows| - 1]) + (if rows[|rows| - 1].left.Some? then [rows[|rows| - 1].left.value] else [])
  }

  function Rights(rows: seq<Row>): seq<Zip> {
    if rows == [] then []
    else Rights(rows[..|rows| - 1]) + (if rows[|rows| - 1].right.Some? then [rows[|rows| - 1].right.value] else [])
  }

  lemma {:induction false} LeftsOfRows(available: seq<Zip>, unavailable: seq<Zip>, n: nat)
    ensures Lefts(Rows(available, unavailable, n)) == available[..Min(n, |available|)]
  {
    if n > 0 {
      LeftsOfRows(available, unavailable, n - 1);
      var rows := Rows(available, unavailable, n);
      assert rows[..n - 1] == Rows(available, unavailable, n - 1);
      if n <= |available| {
        assert rows[n - 1].left == Some(available[n - 1]);
        assert available[..n] == available[..n - 1] + [available[n - 1]];
      } else {
        assert rows[n - 1].left == None;
      }
    }
  }

  lemma {:induction false} RightsOfRows(available: seq<Zip>, unavailable: seq<Zip>, n: nat)
    ensures Rights(Rows(available, unavailable, n)) == unavailable[..Min(n, |unavailable|)]
  {
    if n > 0 {
      RightsOfRows(available, unavailable, n - 1);
      var rows := Rows(available, unavailable, n);
      assert rows[..n - 1] == Rows(available, unavailable, n - 1);
      if n <= |unavailable| {
        assert rows[n - 1].right == Some(unavailable[n - 1]);
        assert unavailable[..n] == unavailable[..n - 1] + [unavailable[n - 1]];
      } else {
        assert rows[n - 1].right == None;
      }
    }
  }

  /** Every ZIP of both lists is printed exactly once, in order, in its own
      column; no row is blank on both sides. */
  lemma PairRowsPrintsAll(available: seq<Zip>, unavailable: seq<Zip>)
    ensures var rows := Rows(available, unavailable, Max(|available|, |unavailable|));
      Lefts(rows) == available && Rights(rows) == unavailable
      && forall k :: 0 <= k < |rows| ==> rows[k].left.Some? || rows[k].right.Some?
  {
    var n := Max(|available|, |unavailable|);
    LeftsOfRows(available, unavailable, n);
    RightsOfRows(available, unavailable, n);
    assert available[..Min(n, |available|)] == available;
    assert unavailable[..Min(n, |unavailable|)] == unavailable;
  }

  // ----- The report file name -----

  predicate IsSlugChar(c: char) {
    ('a' <= c <= 'z') || ('0' <= c <= '9')
  }

  /** Drops the rest of a run of characters outside `[a-z0-9]`. */
  function DropRun(s: string): (r: string)
    ensures |r| <= |s| && r == s[|s| - |r|..]
    ensures r == [] || IsSlugChar(r[0])
  {
    if s != [] && !IsSlugChar(s[0]) then DropRun(s[1..]) else s
  }

  /** `.replace(/[^a-z0-9]+/g, "-")`: each maximal run of other characters
      becomes one `-`. */
  function CollapseRuns(s: string): (r: string)
    ensures forall k :: 0 <= k < |r| ==> IsSlugChar(r[k]) || r[k] == '-'
    ensures forall k :: 0 <= k < |r| - 1 ==> !(r[k] == '-' && r[k + 1] == '-')
    ensures r != [] && r[0] == '-' ==> s != [] && !IsSlugChar(s[0])
    decreases |s|
  {
    if s == [] then []
    else if IsSlugChar(s[0]) then [s[0]] + CollapseRuns(s[1..])
    else
      var rest := DropRun(s[1..]);
      assert rest == [] || IsSlugChar(rest[0]);
      "-" + CollapseRuns(rest)
  }

  /** `.replace(/(^-|-$)/g, "")`: one leading and one trailing `-` go. */
  function StripDashes(s: string): string {
    var t := if s != [] && s[0] == '-' then s[1..] else s;
    if t != [] && t[|t| - 1] == '-' then t[..|t| - 1] else t
  }

  /** The file-name stem of a brand's report. */
  function SafeName(name: string): string {
    StripDashes(CollapseRuns(Lower(name)))
  }

  /** A slug uses only `[a-z0-9-]`, never two dashes in a row, and neither
      starts nor ends with a dash. */
  lemma SafeNameIsSlug(name: string)
    ensures var r := SafeName(name);
      (forall k :: 0 <= k < |r| ==> IsSlugChar(r[k]) || r[k] == '-')
      && (forall k :: 0 <= k < |r| - 1 ==> !(r[k] == '-' && r[k + 1] == '-'))
      && (r == [] || (r[0] != '-' && r[|r| - 1] != '-'))
  {
    var c := CollapseRuns(Lower(name));
    var r := SafeName(name);
    var t := if c != [] && c[0] == '-' then c[1..] else c;
    var d := |c| - |t|;
    assert t == c[d..];
    assert r == t[..|r|];
    if r != [] {
      if c != [] && c[0] == '-' {
        assert r[0] == c[1];
      } else {
        assert r[0] == c[0];
      }
      if t[|t| - 1] == '-' {
        assert r[|r| - 1] == c[d + |t| - 2] && c[d + |t| - 1] == '-';
      } else {
        assert r[|r| - 1] == t[|t| - 1];
      }
    }
  }

  /** A slug keeps every letter and digit of the lower-cased name, in
      order: dropping the dashes from the collapsed name gives exactly the
      `[a-z0-9]` characters. */
  function SlugChars(s: string): string {
    if s == [] then [] else (if IsSlugChar(s[0]) then [s[0]] else []) + SlugChars(s[1..])
  }

  lemma {:induction false} SlugCharsAppend(a: string, b: string)
    ensures SlugChars(a + b) == SlugChars(a) + SlugChars(b)
  {
    if a == [] {
      assert a + b == b;
    } else {
      var h := if IsSlugChar(a[0]) then [a[0]] else [];
      assert (a + b)[0] == a[0];
      assert (a + b)[1..] == a[1..] + b;
      SlugCharsAppend(a[1..], b);
      assert SlugChars(a + b) == h + SlugChars(a[1..] + b);
      assert SlugChars(a) == h + SlugChars(a[1..]);
    }
  }

  lemma {:induction false} DropRunSlugChars(s: string)
    ensures SlugChars(DropRun(s)) == SlugChars(s)
  {
    if s != [] && !IsSlugChar(s[0]) {
      DropRunSlugChars(s[1..]);
    }
  }

  lemma {:induction false} CollapseRunsKeeps(s: string)
    ensures SlugChars(CollapseRuns(s)) == SlugChars(s)
    decreases |s|
  {
    if s != [] {
      if IsSlugChar(s[0]) {
        CollapseRunsKeeps(s[1..]);
        SlugCharsAppend([s[0]], CollapseRuns(s[1..]));
      } else {
        var rest := DropRun(s[1..]);
        CollapseRunsKeeps(rest);
        DropRunSlugChars(s[1..]);
        SlugCharsAppend("-", CollapseRuns(rest));
      }
    }
  }

  lemma StripDashesKeeps(c: string)
    ensures SlugChars(StripDashes(c)) == SlugChars(c)
  {
    var t := if c != [] && c[0] == '-' then c[1..] else c;
    assert SlugChars(t) == SlugChars(c) by {
      if c != [] && c[0] == '-' {
        assert c == "-" + t;
        SlugCharsAppend("-", t);
      }
    }
    if t != [] && t[|t| - 1] == '-' {
      var u := t[..|t| - 1];
      assert t == u + "-";
      SlugCharsAppend(u, "-");
    }
  }

  lemma SafeNameKeeps(name: string)
    ensures SlugChars(SafeName(name)) == SlugChars(Lower(name))
  {
    CollapseRunsKeeps(Lower(name));
    StripDashesKeeps(CollapseRuns(Lower(name)));
  }

  // ----- The location search -----

  /** `(raw || "").trim().toLowerCase()`; `None` is a missing value. */
  function Normalized(raw: Option<string>): string {
    Lower(Trim(if raw.Some? then raw.value else ""))
  }

  /** `parseLocationValue`. */
  function ParseLocationValue(raw: Option<string>): string {
    var v := Normalized(raw);
    if v == "" then ""
    else if v == "columbus" then "columbus"
    else if v == "columbus, ohio" then "columbus"
    else if StartsWith(v, "columbus") then "columbus"
    else v
  }

  /** The empty result means a blank input; anything starting with
      `columbus` means Columbus; all else comes back trimmed and
      lower-cased. */
  lemma ParseLocationCases(raw: Option<string>)
    ensures ParseLocationValue(raw) == "" <==> Trim(if raw.Some? then raw.value else "") == ""
    ensures StartsWith(Normalized(raw), "columbus") ==> ParseLocationValue(raw) == "columbus"
    ensures !StartsWith(Normalized(raw), "columbus") ==> ParseLocationValue(raw) == Normalized(raw)
  {
    var v := Normalized(raw);
    ColumbusPrefixes();
    assert |v| == |Trim(if raw.Some? then raw.value else "")|;
  }

  /** Both spelled-out Columbus forms start with `columbus`. */
  lemma ColumbusPrefixes()
    ensures StartsWith("columbus", "columbus")
    ensures StartsWith("columbus, ohio", "columbus")
  {
    var c, o := "columbus", "columbus, ohio";
    assert o[..8] == c;
  }

  /** A normalised value is its own normal form. */
  lemma NormalizedIdempotent(raw: Option<string>)
    ensures Normalized(Some(Normalized(raw))) == Normalized(raw)
  {
    var t := Trim(if raw.Some? then raw.value else "");
    var n := Lower(t);
    assert Normalized(raw) == n;
    assert Normalized(Some(n)) == Lower(Trim(n));
    LowerTrim(t);
    assert Trim(n) == Lower(Trim(t));
    TrimIdempotent(if raw.Some? then raw.value else "");
    assert Trim(t) == t;
    LowerIdempotent(t);
    assert Lower(n) == n;
  }

  /** `columbus` is already trimmed and lower-case. */
  lemma ColumbusIsNormal()
    ensures Normalized(Some("columbus")) == "columbus"
  {
    var c := "columbus";
    assert IsLowerLetters(c);
    LowerLettersNormal(c);
  }

  predicate IsLowerLetters(s: string) {
    forall k :: 0 <= k < |s| ==> 'a' <= s[k] <= 'z'
  }

  /** A word of lower-case letters is its own normal form. */
  lemma LowerLettersNormal(s: string)
    requires IsLowerLetters(s)
    ensures Normalized(Some(s)) == s
  {
    if s != [] {
      assert !IsJsSpace(s[0]) && !IsJsSpace(s[|s| - 1]);
    }
    assert TrimStart(s) == s;
    assert TrimEnd(s) == s;
    assert Lower(s) == s;
  }

  /** Parsing what parsing returned changes nothing. */
  lemma ParseLocationIdempotent(raw: Option<string>)
    ensures ParseLocationValue(Some(ParseLocationValue(raw))) == ParseLocationValue(raw)
  {
    ParseLocationCases(raw);
    var r := ParseLocationValue(raw);
    ParseLocationCases(Some(r));
    if r == "columbus" {
      ColumbusIsNormal();
    } else if r != "" {
      NormalizedIdempotent(raw);
    }
  }

  /** `shouldShow` in the location autocomplete. */
  predicate ShouldShow(value: Option<string>) {
    var v := Normalized(value);
    |v| >= 3 && StartsWith(v, "col")
  }

  /** The length test is implied by the prefix, and every value that
      `parseLocationValue` reads as Columbus opens the suggestion. */
  lemma ShouldShowPrefix(value: Option<string>)
    ensures ShouldShow(value) <==> StartsWith(Normalized(value), "col")
    ensures StartsWith(Normalized(value), "columbus") ==> ShouldShow(value)
  {
    ColumbusStartsWithCol();
    var v := Normalized(value);
    if StartsWith(v, "columbus") {
      PrefixOfPrefix(v, "columbus", "col");
    }
  }

  lemma ColumbusStartsWithCol()
    ensures |"col"| == 3 && StartsWith("columbus", "col")
  {
    var c := "columbus";
    assert c[..3] == "col";
  }

  /** A prefix of a prefix is a prefix. */
  lemma PrefixOfPrefix(s: string, p: string, q: string)
    requires StartsWith(s, p) && StartsWith(p, q)
    ensures StartsWith(s, q)
  {
    assert s[..|q|] == s[..|p|][..|q|];
  }
}
