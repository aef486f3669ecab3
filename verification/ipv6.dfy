/**
 * The text form of an IPv6 address as Python's `ipaddress` parses and
 * prints it (section 2.2 of RFC 4291 for the accepted forms, section 4 of
 * RFC 5952 for the printed one): eight hextets of at most four hex digits,
 * one `::` standing for a run of zero hextets, an optional dotted-quad tail.
 */
module Ipv6 {
  import opened Wrappers
  import opened Text
  import opened Bytes
  import Ipv4

  type Hextet = x: int | 0 <= x < 0x1_0000

  /** The eight 16-bit groups of a 16-byte address, most significant first. */
  function Hextets(b: seq<Byte>): (h: seq<Hextet>)
    requires |b| == 16
    ensures |h| == 8
  {
    seq(8, i requires 0 <= i < 8 => b[2 * i] as int * 0x100 + b[2 * i + 1])
  }

  function HextetBytes(h: seq<Hextet>): (b: seq<Byte>)
    requires |h| == 8
    ensures |b| == 16
  {
    seq(16, i requires 0 <= i < 16 => if i % 2 == 0 then h[i / 2] / 0x100 else h[i / 2] % 0x100)
  }

  lemma BytesOfHextets(b: seq<Byte>)
    requires |b| == 16
    ensures HextetBytes(Hextets(b)) == b
  {
    var h := Hextets(b);
    forall i | 0 <= i < 16 ensures HextetBytes(h)[i] == b[i] {
      var j := i / 2;
      assert h[j] == b[2 * j] as int * 0x100 + b[2 * j + 1];
    }
  }

  function Zeros(n: nat): (z: seq<Hextet>)
    ensures |z| == n && forall i :: 0 <= i < n ==> z[i] == 0
  {
    seq(n, _ => 0)
  }

  /** `_parse_hextet`: one to four hex digits of either case. */
  function ParseHextet(s: string): Option<Hextet>
  {
    if !AllHexDigits(s) then None
    else if |s| > 4 then None
    else if s == [] then None
    else Some(HexValue(s))
  }

  /** Every part read as a hextet, or nothing when one of them is not one. */
  function ParseHextets(ps: seq<string>): (r: Option<seq<Hextet>>)
    ensures r.Some? ==> |r.value| == |ps|
  {
    if forall i :: 0 <= i < |ps| ==> ParseHextet(ps[i]).Some? then
      Some(seq(|ps|, i requires 0 <= i < |ps| && ParseHextet(ps[i]).Some? => ParseHextet(ps[i]).value))
    else None
  }

  /** Where `::` was found: nowhere, at one interior part, or more than once. */
  datatype Skip = NoSkip | SkipAt(index: nat) | TwoSkips

  /** The search of `_ip_int_from_string` for the empty interior part that `::` leaves. */
  function ScanSkip(parts: seq<string>, i: nat, found: Skip): (r: Skip)
    requires 1 <= i && !found.TwoSkips?
    requires found.SkipAt? ==> 1 <= found.index < i && found.index + 1 < |parts| && parts[found.index] == ""
    ensures r.SkipAt? ==> 1 <= r.index && r.index + 1 < |parts| && parts[r.index] == ""
    decreases |parts| - i
  {
    if i + 1 >= |parts| then found
    else if parts[i] == "" then (if found.SkipAt? then TwoSkips else ScanSkip(parts, i + 1, SkipAt(i)))
    else ScanSkip(parts, i + 1, found)
  }

  /** A dotted-quad last part becomes the two hextets it spells. */
  function ExpandV4Tail(parts: seq<string>): (r: Option<seq<string>>)
    requires |parts| >= 1
    ensures r.Some? ==> |r.value| >= |parts|
  {
    var last := parts[|parts| - 1];
    if '.' !in last then Some(parts)
    else
      var v4 :- Ipv4.ParseV4(last);
      Some(parts[..|parts| - 1] + [HexString(v4[0] as int * 0x100 + v4[1]), HexString(v4[2] as int * 0x100 + v4[3])])
  }

  /** The hextets of the parts before `::`, the zeros it stands for, then those of the parts after it. */
  function Around(top: seq<string>, skipped: nat, bottom: seq<string>): (r: Option<seq<Hextet>>)
    ensures r.Some? ==> |r.value| == |top| + skipped + |bottom|
  {
    var t :- ParseHextets(top);
    var b :- ParseHextets(bottom);
    Some(t + Zeros(skipped) + b)
  }

  /** The `::` branch of `_ip_int_from_string`, for the empty interior part at `k`. */
  function AroundSkip(parts: seq<string>, k: nat): (r: Option<seq<Hextet>>)
    requires 1 <= k && k + 1 < |parts|
    ensures r.Some? ==> |r.value| == 8
  {
    var hi := if parts[0] == "" then k - 1 else k;
    var lo := if parts[|parts| - 1] == "" then |parts| - k - 2 else |parts| - k - 1;
    if parts[0] == "" && hi != 0 then None
    else if parts[|parts| - 1] == "" && lo != 0 then None
    else if 8 - (hi + lo) < 1 then None
    else Around(parts[..hi], 8 - (hi + lo), parts[|parts| - lo..])
  }

  /** The hextets that colon-separated parts spell, by the `::` rules of `_ip_int_from_string`. */
  function HextetsOf(parts: seq<string>): (r: Option<seq<Hextet>>)
    requires |parts| >= 1
    ensures r.Some? ==> |r.value| == 8
  {
    match ScanSkip(parts, 1, NoSkip)
    case TwoSkips => None
    case SkipAt(k) => AroundSkip(parts, k)
    case NoSkip =>
      if |parts| != 8 || parts[0] == "" || parts[7] == "" then None
      else ParseHextets(parts)
  }

  /** `IPv6Address._ip_int_from_string`, producing the sixteen address bytes. */
  function ParseV6(s: string): (r: Option<seq<Byte>>)
    ensures r.Some? ==> |r.value| == 16
  {
    if s == [] then None
    else
      var parts0 := Split(s, ':');
      if |parts0| < 3 then None
      else
        var parts :- ExpandV4Tail(parts0);
        if |parts| > 9 then None
        else
          var h :- HextetsOf(parts);
          Some(HextetBytes(h))
  }

  /** `'%x' % hextet` for every hextet. */
  function Words(h: seq<Hextet>): (w: seq<string>)
    ensures |w| == |h|
  {
    seq(|h|, i requires 0 <= i < |h| => HexString(h[i]))
  }

  /** Words `j .. j + m - 1` exist and are all "0". */
  ghost predicate ZeroRun(w: seq<string>, j: int, m: nat)
  {
    0 <= j && j + m <= |w| && forall k :: j <= k < j + m ==> w[k] == "0"
  }

  /**
   * The scan of `_compress_hextets`: `(bestStart, bestLen)` is the longest run
   * of "0" words seen so far (the first one on a tie), `(curStart, curLen)`
   * the run that ends at `i`.
   */
  function ScanZeroRuns(w: seq<string>, i: nat, bestStart: int, bestLen: nat, curStart: int, curLen: nat): (run: (int, nat))
    requires i <= |w|
    decreases |w| - i
  {
    if i >= |w| then (bestStart, bestLen)
    else if w[i] == "0" then
      var cs := if curStart == -1 then i else curStart;
      var cl := curLen + 1;
      if cl > bestLen then
        ScanZeroRuns(w, i + 1, cs, cl, cs, cl)
      else
        ScanZeroRuns(w, i + 1, bestStart, bestLen, cs, cl)
    else
      ScanZeroRuns(w, i + 1, bestStart, bestLen, -1, 0)
  }

  /**
   * What the scan knows after the first `i` words: the current run is the
   * maximal run of "0" words ending at `i`, and the best run is a longest
   * run ending at or before `i`, the first of that length.
   */
  ghost predicate ScanState(w: seq<string>, i: nat, bestStart: int, bestLen: nat, curStart: int, curLen: nat)
  {
    && i <= |w|
    && (curLen == 0 <==> curStart == -1)
    && (curLen > 0 ==> curStart + curLen == i && ZeroRun(w, curStart, curLen) && (curStart == 0 || w[curStart - 1] != "0"))
    && (curLen == 0 ==> i == 0 || w[i - 1] != "0")
    && (bestLen > 0 ==> bestStart + bestLen <= i && ZeroRun(w, bestStart, bestLen))
    && (forall j: int, m: nat :: ZeroRun(w, j, m) && j + m <= i ==> m <= bestLen)
    && (bestLen > 0 ==> forall j :: 0 <= j < bestStart ==> !ZeroRun(w, j, bestLen))
  }

  /** `run` is a longest run of "0" words in `w`, and the first of that length. */
  ghost predicate LongestFirstRun(w: seq<string>, run: (int, nat))
  {
    && (run.1 > 0 ==> ZeroRun(w, run.0, run.1))
    && (forall j: int, m: nat :: ZeroRun(w, j, m) ==> m <= run.1)
    && (run.1 > 0 ==> forall j :: 0 <= j < run.0 ==> !ZeroRun(w, j, run.1))
  }

  /** The scan keeps its state and ends with the first longest run. */
  lemma {:induction false} ScanFindsLongest(w: seq<string>, i: nat, bestStart: int, bestLen: nat, curStart: int, curLen: nat)
    requires ScanState(w, i, bestStart, bestLen, curStart, curLen)
    ensures LongestFirstRun(w, ScanZeroRuns(w, i, bestStart, bestLen, curStart, curLen))
    decreases |w| - i
  {
    if i >= |w| {
      ScanDone(w, i, bestStart, bestLen, curStart, curLen);
    } else if w[i] == "0" {
      var cs := if curStart == -1 then i else curStart;
      var cl := curLen + 1;
      ScanZeroStep(w, i, bestStart, bestLen, curStart, curLen);
      if cl > bestLen {
        ScanFindsLongest(w, i + 1, cs, cl, cs, cl);
      } else {
        ScanFindsLongest(w, i + 1, bestStart, bestLen, cs, cl);
      }
    } else {
      ScanOtherStep(w, i, bestStart, bestLen, curStart, curLen);
      ScanFindsLongest(w, i + 1, bestStart, bestLen, -1, 0);
    }
  }

  lemma ScanDone(w: seq<string>, i: nat, bestStart: int, bestLen: nat, curStart: int, curLen: nat)
    requires ScanState(w, i, bestStart, bestLen, curStart, curLen) && i >= |w|
    ensures LongestFirstRun(w, (bestStart, bestLen))
  {
  }

  /** A "0" word extends the current run, which becomes the best one when it grows longer than it. */
  lemma ScanZeroStep(w: seq<string>, i: nat, bestStart: int, bestLen: nat, curStart: int, curLen: nat)
    requires ScanState(w, i, bestStart, bestLen, curStart, curLen) && i < |w| && w[i] == "0"
    ensures var cs, cl := (if curStart == -1 then i else curStart), curLen + 1;
      && (cl > bestLen ==> ScanState(w, i + 1, cs, cl, cs, cl))
      && (cl <= bestLen ==> ScanState(w, i + 1, bestStart, bestLen, cs, cl))
  {
    var cs := if curStart == -1 then i else curStart;
    var cl := curLen + 1;
    assert ZeroRun(w, cs, cl);
    RunsThrough(w, i, bestLen, cs, cl);
    if cl > bestLen {
      forall j | 0 <= j < cs ensures !ZeroRun(w, j, cl) {
        assert j + cl <= i;
      }
    }
  }

  /** A word other than "0" ends the current run. */
  lemma ScanOtherStep(w: seq<string>, i: nat, bestStart: int, bestLen: nat, curStart: int, curLen: nat)
    requires ScanState(w, i, bestStart, bestLen, curStart, curLen) && i < |w| && w[i] != "0"
    ensures ScanState(w, i + 1, bestStart, bestLen, -1, 0)
  {
    RunsBefore(w, i, bestLen);
  }

  /** A run ending just after the "0" at `i` lies inside the current run, which starts after a non-zero word. */
  lemma RunsThrough(w: seq<string>, i: nat, bestLen: nat, cs: int, cl: nat)
    requires i < |w| && cs + cl == i + 1 && ZeroRun(w, cs, cl) && (cs == 0 || w[cs - 1] != "0")
    requires forall j: int, m: nat :: ZeroRun(w, j, m) && j + m <= i ==> m <= bestLen
    ensures forall j: int, m: nat :: ZeroRun(w, j, m) && j + m <= i + 1 ==> m <= bestLen || m <= cl
  {
    forall j: int, m: nat | ZeroRun(w, j, m) && j + m <= i + 1
      ensures m <= bestLen || m <= cl
    {
      if cs > 0 {
        assert !(j <= cs - 1 < j + m);
      }
    }
  }

  /** A run cannot end just after a word that is not "0", unless it is empty. */
  lemma RunsBefore(w: seq<string>, i: nat, bestLen: nat)
    requires i < |w| && w[i] != "0"
    requires forall j: int, m: nat :: ZeroRun(w, j, m) && j + m <= i ==> m <= bestLen
    ensures forall j: int, m: nat :: ZeroRun(w, j, m) && j + m <= i + 1 ==> m <= bestLen
  {
    forall j: int, m: nat | ZeroRun(w, j, m) && j + m <= i + 1
      ensures m <= bestLen
    {
      assert !(j <= i < j + m);
    }
  }

  /**
   * The run that `::` replaces (RFC 5952, section 4.2.3): a run of "0" words
   * that no other run is longer than, and the first of that length.
   */
  function BestZeroRun(w: seq<string>): (run: (int, nat))
    ensures run.1 > 0 ==> ZeroRun(w, run.0, run.1)
    ensures forall j: int, m: nat :: ZeroRun(w, j, m) ==> m <= run.1
    ensures run.1 > 0 ==> forall j :: 0 <= j < run.0 ==> !ZeroRun(w, j, run.1)
  {
    ScanFindsLongest(w, 0, -1, 0, -1, 0);
    ScanZeroRuns(w, 0, -1, 0, -1, 0)
  }

  /** `_compress_hextets`: replace the best run of two or more "0" words by an empty word. */
  function Compress(w: seq<string>): seq<string>
  {
    var run := BestZeroRun(w);
    var s, l := run.0, run.1;
    if l <= 1 then w
    else
      var e := s + l;
      var padded := if e == |w| then w + [""] else w;
      var spliced := padded[..s] + [""] + padded[e..];
      if s == 0 then [""] + spliced else spliced
  }

  /** `str(IPv6Address)`: compressed lower-case hextets joined by colons. */
  function FormatV6(b: seq<Byte>): string
    requires |b| == 16
  {
    Join(Compress(Words(Hextets(b))), ":")
  }

  lemma WordFacts(h: seq<Hextet>, i: nat)
    requires i < |h|
    ensures Words(h)[i] != [] && |Words(h)[i]| <= 4 && AllHexDigits(Words(h)[i])
    ensures ParseHextet(Words(h)[i]) == Some(h[i])
    ensures Words(h)[i] == "0" <==> h[i] == 0
    ensures ':' !in Words(h)[i] && '.' !in Words(h)[i]
  {
    var x := Words(h)[i];
    assert HexValue("0") == 0;
    assert ':' !in x by {
      forall k | 0 <= k < |x| ensures x[k] != ':' { }
    }
    assert '.' !in x by {
      forall k | 0 <= k < |x| ensures x[k] != '.' { }
    }
  }

  lemma ParseWords(h: seq<Hextet>)
    ensures ParseHextets(Words(h)) == Some(h)
  {
    var w := Words(h);
    forall i | 0 <= i < |h| ensures ParseHextet(w[i]) == Some(h[i]) {
      WordFacts(h, i);
    }
    assert seq(|w|, i requires 0 <= i < |w| && ParseHextet(w[i]).Some? => ParseHextet(w[i]).value) == h;
  }

  lemma WordsSlice(h: seq<Hextet>, a: nat, b: nat)
    requires a <= b <= |h|
    ensures Words(h)[a..b] == Words(h[a..b])
  {
  }

  lemma {:induction false} ScanNoEmpty(parts: seq<string>, i: nat, found: Skip)
    requires 1 <= i && !found.TwoSkips?
    requires found.SkipAt? ==> 1 <= found.index < i && found.index + 1 < |parts| && parts[found.index] == ""
    requires forall j :: i <= j < |parts| - 1 ==> parts[j] != ""
    ensures ScanSkip(parts, i, found) == found
    decreases |parts| - i
  {
    if i + 1 < |parts| {
      ScanNoEmpty(parts, i + 1, found);
    }
  }

  lemma {:induction false} ScanOneEmpty(parts: seq<string>, i: nat, k: nat)
    requires 1 <= i <= k && k + 1 < |parts| && parts[k] == ""
    requires forall j :: i <= j < |parts| - 1 && j != k ==> parts[j] != ""
    ensures ScanSkip(parts, i, NoSkip) == SkipAt(k)
    decreases k - i
  {
    if i < k {
      ScanOneEmpty(parts, i + 1, k);
    } else {
      ScanNoEmpty(parts, k + 1, SkipAt(k));
    }
  }

  /** The parts of `top::bottom`: an empty part stands for each side that has no words. */
  function Gapped(top: seq<string>, bottom: seq<string>): seq<string>
  {
    (if top == [] then [""] else top) + [""] + (if bottom == [] then [""] else bottom)
  }

  lemma WordsNonEmpty(h: seq<Hextet>)
    ensures forall i :: 0 <= i < |h| ==> Words(h)[i] != [] && ':' !in Words(h)[i] && '.' !in Words(h)[i] && AllHexDigits(Words(h)[i])
  {
    forall i | 0 <= i < |h| ensures Words(h)[i] != [] && ':' !in Words(h)[i] && '.' !in Words(h)[i] && AllHexDigits(Words(h)[i]) {
      WordFacts(h, i);
    }
  }

  /** How `HextetsOf` reads parts with exactly one `::` at `k`, given the words on either side. */
  lemma SkipAtHextets(parts: seq<string>, k: nat, hi: nat, lo: nat, t: seq<string>, b: seq<string>, top: seq<Hextet>, bottom: seq<Hextet>)
    requires 1 <= k && k + 1 < |parts| && ScanSkip(parts, 1, NoSkip) == SkipAt(k)
    requires hi == (if parts[0] == "" then k - 1 else k)
    requires lo == (if parts[|parts| - 1] == "" then |parts| - k - 2 else |parts| - k - 1)
    requires parts[0] == "" ==> hi == 0
    requires parts[|parts| - 1] == "" ==> lo == 0
    requires hi + lo <= 7 && hi <= |parts| && lo <= |parts|
    requires parts[..hi] == t && parts[|parts| - lo..] == b
    requires ParseHextets(t) == Some(top) && ParseHextets(b) == Some(bottom)
    ensures HextetsOf(parts) == Some(top + Zeros(8 - (hi + lo)) + bottom)
  {
    HextetsOfSkip(parts, k);
    AroundSkipSides(parts, k, hi, lo);
    AroundParsed(t, 8 - (hi + lo), b, top, bottom);
  }

  lemma HextetsOfSkip(parts: seq<string>, k: nat)
    requires 1 <= k && k + 1 < |parts| && ScanSkip(parts, 1, NoSkip) == SkipAt(k)
    ensures HextetsOf(parts) == AroundSkip(parts, k)
  {
  }

  lemma AroundSkipSides(parts: seq<string>, k: nat, hi: nat, lo: nat)
    requires 1 <= k && k + 1 < |parts|
    requires hi == (if parts[0] == "" then k - 1 else k)
    requires lo == (if parts[|parts| - 1] == "" then |parts| - k - 2 else |parts| - k - 1)
    requires parts[0] == "" ==> hi == 0
    requires parts[|parts| - 1] == "" ==> lo == 0
    requires hi + lo <= 7
    ensures AroundSkip(parts, k) == Around(parts[..hi], 8 - (hi + lo), parts[|parts| - lo..])
  {
  }

  lemma AroundParsed(x: seq<string>, n: nat, y: seq<string>, top: seq<Hextet>, bottom: seq<Hextet>)
    requires ParseHextets(x) == Some(top) && ParseHextets(y) == Some(bottom)
    ensures Around(x, n, y) == Some(top + Zeros(n) + bottom)
  {
  }

  /** The parser reads `top::bottom` as the top hextets, zeros, then the bottom hextets. */
  lemma GappedHextets(top: seq<Hextet>, bottom: seq<Hextet>)
    requires |top| + |bottom| <= 6
    ensures HextetsOf(Gapped(Words(top), Words(bottom))) == Some(top + Zeros(8 - |top| - |bottom|) + bottom)
  {
    if top == [] && bottom == [] {
      GappedBothHextets(top, bottom);
    } else if top == [] {
      GappedFrontHextets(top, bottom);
    } else if bottom == [] {
      GappedBackHextets(top, bottom);
    } else {
      GappedMiddleHextets(top, bottom);
    }
  }

  lemma GappedBothHextets(top: seq<Hextet>, bottom: seq<Hextet>)
    requires top == [] && bottom == []
    ensures HextetsOf(Gapped(Words(top), Words(bottom))) == Some(top + Zeros(8 - |top| - |bottom|) + bottom)
  {
    ParseWords(top);
    ParseWords(bottom);
    GappedBoth(Words(top), Words(bottom), top, bottom);
  }

  lemma GappedFrontHextets(top: seq<Hextet>, bottom: seq<Hextet>)
    requires |top| + |bottom| <= 6 && top == [] && bottom != []
    ensures HextetsOf(Gapped(Words(top), Words(bottom))) == Some(top + Zeros(8 - |top| - |bottom|) + bottom)
  {
    WordsFilled(bottom);
    ParseWords(top);
    ParseWords(bottom);
    GappedFront(Words(top), Words(bottom), top, bottom);
  }

  lemma GappedBackHextets(top: seq<Hextet>, bottom: seq<Hextet>)
    requires |top| + |bottom| <= 6 && top != [] && bottom == []
    ensures HextetsOf(Gapped(Words(top), Words(bottom))) == Some(top + Zeros(8 - |top| - |bottom|) + bottom)
  {
    WordsFilled(top);
    ParseWords(top);
    ParseWords(bottom);
    GappedBack(Words(top), Words(bottom), top, bottom);
  }

  lemma GappedMiddleHextets(top: seq<Hextet>, bottom: seq<Hextet>)
    requires |top| + |bottom| <= 6 && top != [] && bottom != []
    ensures HextetsOf(Gapped(Words(top), Words(bottom))) == Some(top + Zeros(8 - |top| - |bottom|) + bottom)
  {
    WordsFilled(top);
    WordsFilled(bottom);
    ParseWords(top);
    ParseWords(bottom);
    GappedMiddle(Words(top), Words(bottom), top, bottom);
  }

  lemma GappedBoth(t: seq<string>, b: seq<string>, top: seq<Hextet>, bottom: seq<Hextet>)
    requires t == [] && b == []
    requires ParseHextets(t) == Some(top) && ParseHextets(b) == Some(bottom)
    ensures HextetsOf(Gapped(t, b)) == Some(top + Zeros(8) + bottom)
  {
    var parts := Gapped(t, b);
    assert parts == ["", "", ""];
    assert parts[..0] == t && parts[3..] == b;
    SkipAtHextets(parts, 1, 0, 0, t, b, top, bottom);
  }

  lemma GappedFront(t: seq<string>, b: seq<string>, top: seq<Hextet>, bottom: seq<Hextet>)
    requires t == [] && b != [] && |b| <= 6 && forall i :: 0 <= i < |b| ==> b[i] != ""
    requires ParseHextets(t) == Some(top) && ParseHextets(b) == Some(bottom)
    ensures HextetsOf(Gapped(t, b)) == Some(top + Zeros(8 - |top| - |bottom|) + bottom)
  {
    GappedFrontShape(t, b);
    SkipAtHextets(Gapped(t, b), 1, 0, |b|, t, b, top, bottom);
  }

  lemma GappedFrontShape(t: seq<string>, b: seq<string>)
    requires t == [] && b != [] && forall i :: 0 <= i < |b| ==> b[i] != ""
    ensures var parts := Gapped(t, b);
      |parts| == |b| + 2 && parts[0] == "" && parts[|parts| - 1] != "" &&
      ScanSkip(parts, 1, NoSkip) == SkipAt(1) && parts[..0] == t && parts[2..] == b
  {
    var parts := Gapped(t, b);
    assert parts == ["", ""] + b;
    ScanOneEmpty(parts, 1, 1);
  }

  lemma GappedBack(t: seq<string>, b: seq<string>, top: seq<Hextet>, bottom: seq<Hextet>)
    requires t != [] && b == [] && |t| <= 6 && forall i :: 0 <= i < |t| ==> t[i] != ""
    requires ParseHextets(t) == Some(top) && ParseHextets(b) == Some(bottom)
    ensures HextetsOf(Gapped(t, b)) == Some(top + Zeros(8 - |top| - |bottom|) + bottom)
  {
    GappedBackShape(t, b);
    SkipAtHextets(Gapped(t, b), |t|, |t|, 0, t, b, top, bottom);
  }

  lemma GappedBackShape(t: seq<string>, b: seq<string>)
    requires t != [] && b == [] && forall i :: 0 <= i < |t| ==> t[i] != ""
    ensures var parts := Gapped(t, b);
      |parts| == |t| + 2 && parts[0] != "" && parts[|parts| - 1] == "" &&
      ScanSkip(parts, 1, NoSkip) == SkipAt(|t|) && parts[..|t|] == t && parts[|parts|..] == b
  {
    var parts := Gapped(t, b);
    assert parts == t + ["", ""];
    ScanOneEmpty(parts, 1, |t|);
  }

  lemma GappedMiddle(t: seq<string>, b: seq<string>, top: seq<Hextet>, bottom: seq<Hextet>)
    requires t != [] && b != [] && |t| + |b| <= 6
    requires forall i :: 0 <= i < |t| ==> t[i] != ""
    requires forall i :: 0 <= i < |b| ==> b[i] != ""
    requires ParseHextets(t) == Some(top) && ParseHextets(b) == Some(bottom)
    ensures HextetsOf(Gapped(t, b)) == Some(top + Zeros(8 - |top| - |bottom|) + bottom)
  {
    GappedMiddleShape(t, b);
    SkipAtHextets(Gapped(t, b), |t|, |t|, |b|, t, b, top, bottom);
  }

  lemma GappedMiddleShape(t: seq<string>, b: seq<string>)
    requires t != [] && b != []
    requires forall i :: 0 <= i < |t| ==> t[i] != ""
    requires forall i :: 0 <= i < |b| ==> b[i] != ""
    ensures var parts := Gapped(t, b);
      |parts| == |t| + |b| + 1 && parts[0] != "" && parts[|parts| - 1] != "" &&
      ScanSkip(parts, 1, NoSkip) == SkipAt(|t|) && parts[..|t|] == t && parts[|t| + 1..] == b
  {
    var parts := Gapped(t, b);
    assert parts == t + [""] + b;
    ScanOneEmpty(parts, 1, |t|);
  }

  /** A part of printed text: hex digits only, so neither a colon nor a dot. */
  predicate PlainPart(p: string)
  {
    ':' !in p && '.' !in p && AllHexDigits(p)
  }

  lemma WordsFilled(h: seq<Hextet>)
    ensures forall i :: 0 <= i < |h| ==> Words(h)[i] != ""
  {
    WordsNonEmpty(h);
  }

  lemma PlainWords(h: seq<Hextet>)
    ensures forall i :: 0 <= i < |h| ==> PlainPart(Words(h)[i])
  {
    WordsNonEmpty(h);
  }

  lemma CompressNoRun(h: seq<Hextet>)
    requires |h| == 8 && BestZeroRun(Words(h)).1 <= 1
    ensures Compress(Words(h)) == Words(h)
    ensures HextetsOf(Words(h)) == Some(h)
  {
    WordsNonEmpty(h);
    ScanNoEmpty(Words(h), 1, NoSkip);
    ParseWords(h);
  }

  lemma CompressRun(h: seq<Hextet>)
    requires |h| == 8 && BestZeroRun(Words(h)).1 > 1
    ensures var (s, l) := BestZeroRun(Words(h));
      s + l <= 8 && h == h[..s] + Zeros(l) + h[s + l..] &&
      Compress(Words(h)) == Gapped(Words(h[..s]), Words(h[s + l..]))
  {
    var w := Words(h);
    var (s, l) := BestZeroRun(w);
    ZeroRunHextets(h, s, l);
    CompressGapped(w);
    WordsSlice(h, 0, s);
    WordsSlice(h, s + l, 8);
  }

  /** A run of "0" words comes from a run of zero hextets. */
  lemma ZeroRunHextets(h: seq<Hextet>, s: int, l: nat)
    requires ZeroRun(Words(h), s, l)
    ensures h == h[..s] + Zeros(l) + h[s + l..]
  {
    forall j | s <= j < s + l ensures h[j] == 0 {
      WordFacts(h, j);
    }
  }

  lemma CompressGapped(w: seq<string>)
    requires BestZeroRun(w).1 > 1
    ensures var (s, l) := BestZeroRun(w);
      Compress(w) == Gapped(w[..s], w[s + l..])
  {
    var (s, l) := BestZeroRun(w);
    if s + l == |w| {
      assert (w + [""])[..s] == w[..s];
      assert (w + [""])[s + l..] == [""];
    }
  }

  /** The printed parts of an address spell its hextets again, by the `::` rules of the parser. */
  lemma CompressedParts(h: seq<Hextet>)
    requires |h| == 8
    ensures 3 <= |Compress(Words(h))| <= 9
    ensures forall i :: 0 <= i < |Compress(Words(h))| ==> PlainPart(Compress(Words(h))[i])
    ensures HextetsOf(Compress(Words(h))) == Some(h)
  {
    var (s, l) := BestZeroRun(Words(h));
    if l <= 1 {
      CompressNoRun(h);
      PlainWords(h);
    } else {
      CompressRun(h);
      GappedParts(Compress(Words(h)), h, h[..s], l, h[s + l..]);
    }
  }

  /** The parts of `top::bottom` are plain and spell `top`, the zeros `::` stands for, then `bottom`. */
  lemma GappedParts(parts: seq<string>, h: seq<Hextet>, top: seq<Hextet>, l: nat, bottom: seq<Hextet>)
    requires |h| == 8 && l > 1 && h == top + Zeros(l) + bottom
    requires parts == Gapped(Words(top), Words(bottom))
    ensures 3 <= |parts| <= 9
    ensures forall i :: 0 <= i < |parts| ==> PlainPart(parts[i])
    ensures HextetsOf(parts) == Some(h)
  {
    GappedHextets(top, bottom);
    GappedPlain(top, bottom);
  }

  lemma GappedPlain(top: seq<Hextet>, bottom: seq<Hextet>)
    requires |top| + |bottom| <= 6
    ensures 3 <= |Gapped(Words(top), Words(bottom))| <= 9
    ensures forall i :: 0 <= i < |Gapped(Words(top), Words(bottom))| ==> PlainPart(Gapped(Words(top), Words(bottom))[i])
  {
    PlainWords(top);
    PlainWords(bottom);
    assert AllHexDigits("");
  }

  /** Parsing the printed form of an address gives back the address. */
  lemma V6RoundTrip(b: seq<Byte>)
    requires |b| == 16
    ensures ParseV6(FormatV6(b)) == Some(b)
  {
    var h := Hextets(b);
    var parts := Compress(Words(h));
    CompressedParts(h);
    assert forall i :: 0 <= i < |parts| ==> ':' !in parts[i];
    SplitJoin(parts, ':');
    assert Split(FormatV6(b), ':') == parts;
    assert FormatV6(b) != [] by {
      assert FormatV6(b) == parts[0] + ":" + Join(parts[1..], ":");
    }
    BytesOfHextets(b);
  }

  /** The printed form is non-empty and made of hex digits and colons only. */
  lemma V6Chars(b: seq<Byte>)
    requires |b| == 16
    ensures FormatV6(b) != []
    ensures forall k :: 0 <= k < |FormatV6(b)| ==> IsHexDigit(FormatV6(b)[k]) || FormatV6(b)[k] == ':'
  {
    var parts := Compress(Words(Hextets(b)));
    CompressedParts(Hextets(b));
    assert FormatV6(b) == parts[0] + ":" + Join(parts[1..], ":");
    forall i, k | 0 <= i < |parts| && 0 <= k < |parts[i]| ensures IsHexDigit(parts[i][k]) {
      assert PlainPart(parts[i]);
    }
    JoinChars(parts, ":", c => IsHexDigit(c) || c == ':');
  }
}
