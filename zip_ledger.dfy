/** The ledger scan of the boundary exporter (exporter/export-zcta-geojson.js,
    `extractZipsFromRefinedTxt`): the ledger text is split into lines, and
    every line that, once trimmed, starts with five digits followed by
    optional white space and a colon contributes those five digits. The
    distinct ZIPs found are returned sorted. */
module ZipLedger {
  import opened Results
  import opened JsText
  import opened ZipCodes

  /** `text.replace(/\r\n/g, "\n")`. */
  function NormalizeCrlf(s: string): string {
    if |s| >= 2 && s[0] == '\r' && s[1] == '\n' then "\n" + NormalizeCrlf(s[2..])
    else if s == [] then []
    else [s[0]] + NormalizeCrlf(s[1..])
  }

  /** The same text with every line feed written as CR LF. */
  function ToCrlf(s: string): string {
    if s == [] then []
    else (if s[0] == '\n' then "\r\n" else [s[0]]) + ToCrlf(s[1..])
  }

  /** Normalising a CR LF copy of a text gives the text back, whatever
      carriage returns it already held. */
  lemma {:induction false} CrlfRoundTrip(s: string)
    ensures NormalizeCrlf(ToCrlf(s)) == s
  {
    if s != [] {
      CrlfRoundTrip(s[1..]);
      var rest := ToCrlf(s[1..]);
      assert rest == [] || rest[0] != '\n';
      if s[0] == '\n' {
        assert ToCrlf(s) == "\r\n" + rest;
        assert ToCrlf(s)[2..] == rest;
      } else {
        assert ToCrlf(s) == [s[0]] + rest;
        assert ToCrlf(s)[1..] == rest;
      }
      assert s == [s[0]] + s[1..];
    }
  }

  /** `s.split("\n")`: never empty; the empty text is one empty line. */
  function SplitLines(s: string): (r: seq<string>)
    ensures |r| >= 1
    ensures forall k :: 0 <= k < |r| ==> '\n' !in r[k]
  {
    if s == [] then [""]
    else
      var rest := SplitLines(s[1..]);
      if s[0] == '\n' then [""] + rest else [[s[0]] + rest[0]] + rest[1..]
  }

  /** `lines.join("\n")`. */
  function JoinLines(ls: seq<string>): string
    requires |ls| >= 1
  {
    if |ls| == 1 then ls[0] else ls[0] + "\n" + JoinLines(ls[1..])
  }

  /** Splitting loses nothing: joining the lines rebuilds the text. */
  lemma {:induction false} SplitJoin(s: string)
    ensures JoinLines(SplitLines(s)) == s
  {
    if s != [] {
      var rest := SplitLines(s[1..]);
      SplitJoin(s[1..]);
      if s[0] == '\n' {
        assert SplitLines(s)[1..] == rest;
      } else if |rest| > 1 {
        assert SplitLines(s)[1..] == rest[1..];
      }
      assert s == [s[0]] + s[1..];
    }
  }

  /** The lines `extractZipsFromRefinedTxt` scans. */
  function Lines(text: string): seq<string> {
    SplitLines(NormalizeCrlf(text))
  }

  /** `r` matches `\s*:` up to and including position `k`. */
  predicate ColonAfterSpaces(r: string, k: int) {
    0 <= k < |r| && r[k] == ':' && forall j :: 0 <= j < k ==> IsJsSpace(r[j])
  }

  /** `line.trim()` matches `/^(\d{5})\s*:/` capturing `z`. */
  ghost predicate HeaderOf(line: string, z: string) {
    var t := Trim(line);
    IsZip(z) && StartsWith(t, z) && exists k :: ColonAfterSpaces(t[5..], k)
  }

  /** The ZIP a ledger line introduces, if it is a header line. */
  function HeaderZip(line: string): Option<Zip> {
    var t := Trim(line);
    if |t| >= 5 && IsZip(t[..5]) then
      var u := TrimStart(t[5..]);
      if u != [] && u[0] == ':' then Some(t[..5]) else None
    else None
  }

  /** `HeaderZip` captures exactly what the regular expression captures. */
  lemma HeaderZipMatches(line: string, z: string)
    ensures HeaderOf(line, z) <==> HeaderZip(line).Some? && HeaderZip(line).value == z
  {
    var t := Trim(line);
    if |t| >= 5 {
      var r := t[5..];
      var u := TrimStart(r);
      var d := |r| - |u|;
      if u != [] && u[0] == ':' {
        assert ColonAfterSpaces(r, d);
      }
      if k :| ColonAfterSpaces(r, k) {
        assert !IsJsSpace(r[k]);
        assert d <= k;
        assert u != [] && r[d] == u[0] && !IsJsSpace(r[d]);
        assert k <= d;
      }
    }
  }

  /** The values `f` captures from the elements of `xs`. */
  function Captured<A, B>(f: A -> Option<B>, xs: seq<A>): set<B> {
    if xs == [] then {}
    else
      var h := f(xs[|xs| - 1]);
      Captured(f, xs[..|xs| - 1]) + (if h.Some? then {h.value} else {})
  }

  lemma CapturedSnoc<A, B>(f: A -> Option<B>, xs: seq<A>, i: nat)
    requires i < |xs|
    ensures Captured(f, xs[..i + 1])
      == Captured(f, xs[..i]) + (if f(xs[i]).Some? then {f(xs[i]).value} else {})
  {
    assert xs[..i + 1][..i] == xs[..i];
  }

  lemma {:induction false} CapturedMembers<A, B>(f: A -> Option<B>, xs: seq<A>, y: B)
    ensures y in Captured(f, xs) <==> exists k :: 0 <= k < |xs| && f(xs[k]) == Some(y)
  {
    if xs != [] {
      var init := xs[..|xs| - 1];
      CapturedMembers(f, init, y);
      if k :| 0 <= k < |init| && f(init[k]) == Some(y) {
        assert xs[k] == init[k];
      }
      if k :| 0 <= k < |xs| && f(xs[k]) == Some(y) {
        if k < |init| { assert init[k] == xs[k]; }
      }
    }
  }

  /** The ZIPs that header lines among `ls` introduce. */
  function HeaderZips(ls: seq<string>): set<Zip> {
    Captured(HeaderZip, ls)
  }

  /** The ZIPs of a whole ledger. */
  function LedgerZips(text: string): set<Zip> {
    HeaderZips(Lines(text))
  }

  lemma HeaderFound(lines: seq<string>, z: Zip, k: nat)
    requires k < |lines| && HeaderZip(lines[k]) == Some(z)
    ensures exists l :: l in lines && HeaderOf(l, z)
  {
    HeaderZipMatches(lines[k], z);
    assert lines[k] in lines;
  }

  lemma HeaderCaptured(lines: seq<string>, z: Zip, l: string)
    requires l in lines && HeaderOf(l, z)
    ensures exists k :: 0 <= k < |lines| && HeaderZip(lines[k]) == Some(z)
  {
    HeaderZipMatches(l, z);
    var k :| 0 <= k < |lines| && lines[k] == l;
  }

  /** A ZIP is among the header ZIPs of `lines` exactly when one of the
      lines is a header for it. */
  lemma HeaderZipsMembers(lines: seq<string>, z: Zip)
    ensures z in HeaderZips(lines) <==> exists l :: l in lines && HeaderOf(l, z)
  {
    CapturedMembers(HeaderZip, lines, z);
    if k :| 0 <= k < |lines| && HeaderZip(lines[k]) == Some(z) {
      HeaderFound(lines, z, k);
    }
    if l :| l in lines && HeaderOf(l, z) {
      HeaderCaptured(lines, z, l);
    }
  }

  /** A ZIP is in the ledger exactly when some line is a header for it. */
  lemma LedgerZipsMembers(text: string, z: Zip)
    ensures z in LedgerZips(text) <==> exists l :: l in Lines(text) && HeaderOf(l, z)
  {
    HeaderZipsMembers(Lines(text), z);
  }

  /** A text already in LF form. */
  predicate HasNoCrlf(s: string) {
    forall k :: 0 <= k < |s| - 1 ==> !(s[k] == '\r' && s[k + 1] == '\n')
  }

  lemma {:induction false} NormalizeNoCrlf(s: string)
    requires HasNoCrlf(s)
    ensures NormalizeCrlf(s) == s
  {
    if s != [] {
      assert HasNoCrlf(s[1..]) by {
        forall k | 0 <= k < |s[1..]| - 1 ensures !(s[1..][k] == '\r' && s[1..][k + 1] == '\n') {
          assert s[1..][k] == s[k + 1] && s[1..][k + 1] == s[k + 2];
        }
      }
      NormalizeNoCrlf(s[1..]);
      assert s == [s[0]] + s[1..];
    }
  }

  /** A ledger saved with CR LF line ends holds the same ZIPs as its LF
      original. */
  lemma CrlfSameZips(text: string)
    requires HasNoCrlf(text)
    ensures LedgerZips(ToCrlf(text)) == LedgerZips(text)
  {
    CrlfRoundTrip(text);
    NormalizeNoCrlf(text);
  }

  /** So the sorted list is the same list, too: an increasing list is
      fixed by its members. */
  lemma CrlfSameZipList(text: string, lf: seq<Zip>, crlf: seq<Zip>)
    requires HasNoCrlf(text)
    requires Increasing(lf) && forall z :: z in lf <==> z in LedgerZips(text)
    requires Increasing(crlf) && forall z :: z in crlf <==> z in LedgerZips(ToCrlf(text))
    ensures lf == crlf
  {
    CrlfSameZips(text);
    IncreasingUnique(lf, crlf);
  }

  /** Sorting the distinct header ZIPs of a ledger gives what
      `extractZipsFromRefinedTxt` promises. */
  lemma SortedLedgerZips(text: string, found: seq<Zip>)
    requires Distinct(found)
    requires forall z :: z in found <==> z in LedgerZips(text)
    ensures Increasing(SortZips(found))
    ensures forall i, j :: 0 <= i < j < |SortZips(found)| ==> LexLess(SortZips(found)[i], SortZips(found)[j])
    ensures forall z :: z in SortZips(found) <==> z in LedgerZips(text)
    ensures forall z: Zip :: z in SortZips(found) <==> exists l :: l in Lines(text) && HeaderOf(l, z)
  {
    var zips := SortZips(found);
    SortedDistinct(found);
    IncreasingIsLexSorted(zips);
    forall z: Zip ensures z in zips <==> exists l :: l in Lines(text) && HeaderOf(l, z) {
      LedgerZipsMembers(text, z);
    }
  }

  /** The `for` loop of `extractZipsFromRefinedTxt`: adds the ZIP of each
      header line to a `Set`. */
  method ScanHeaders(lines: seq<string>) returns (zips: set<Zip>)
    ensures zips == HeaderZips(lines)
  {
    zips := {};
    var i := 0;
    while i < |lines|
      invariant 0 <= i <= |lines|
      invariant zips == HeaderZips(lines[..i])
    {
      var m := HeaderZip(lines[i]);
      CapturedSnoc(HeaderZip, lines, i);
      if m.Some? {
        zips := zips + {m.value};
      }
      i := i + 1;
    }
    assert lines[..i] == lines;
  }

  /** `Array.from(zips)`: each member once. The order a `Set` iterates in
      is not modelled; the caller sorts the list. */
  method FromSet(zips: set<Zip>) returns (list: seq<Zip>)
    ensures Distinct(list)
    ensures forall z :: z in list <==> z in zips
  {
    list := [];
    var rest := zips;
    while rest != {}
      invariant rest <= zips
      invariant Distinct(list)
      invariant forall z :: z in list <==> z in zips - rest
      decreases |rest|
    {
      var z :| z in rest;
      assert z !in list;
      list := list + [z];
      rest := rest - {z};
    }
  }

  /** `extractZipsFromRefinedTxt`: each distinct header ZIP once, sorted. */
  method ExtractZips(text: string) returns (zips: seq<Zip>)
    ensures Increasing(zips)
    ensures forall i, j :: 0 <= i < j < |zips| ==> LexLess(zips[i], zips[j])
    ensures forall z :: z in zips <==> z in LedgerZips(text)
    ensures forall z: Zip :: z in zips <==> exists l :: l in Lines(text) && HeaderOf(l, z)
  {
    var found := ScanHeaders(Lines(text));
    var list := FromSet(found);
    SortedLedgerZips(text, list);
    zips := SortZips(list);
  }
}
