/** The polyline codec (algorithms/polyline_compressor.cpp): coordinate differences, sign folding, and
    chunks of five bits in printable characters. */
module Polyline {
  import opened Basics

  /** SegmentInformation, as far as the codec looks at it. */
  datatype SegmentInformation = SegmentInformation(location: Coordinate, necessary: bool)

  const TWO_30: int := 0x4000_0000
  const TWO_31: int := 0x8000_0000
  const TWO_32: int := 0x1_0000_0000

  // ----- sign folding --------------------------------------------------------------------

  /** The value of a 32-bit signed integer after overflow. */
  function Wrap(x: int): int {
    (x + TWO_31) % TWO_32 - TWO_31
  }

  /** Doubling moves the sign into the lowest bit; a negative value is complemented. */
  function Fold(x: int): (r: nat)
    ensures r < TWO_31
  {
    var doubled := Wrap(2 * x);
    if doubled < 0 then -doubled - 1 else doubled
  }

  function Unfold(r: nat): int {
    if r % 2 == 1 then -(r / 2) - 1 else r / 2
  }

  /** A 32-bit difference survives folding exactly when it fits in 31 signed bits. */
  lemma {:induction false} FoldRoundTrip(x: int)
    requires -TWO_31 <= x < TWO_31
    ensures Unfold(Fold(x)) == x <==> -TWO_30 <= x < TWO_30
  {
    if x < -TWO_30 {
      WrapsTo(2 * x, 2 * x + TWO_32);
      UnfoldTwice(x + TWO_31);
    } else if x >= TWO_30 {
      WrapsTo(2 * x, 2 * x - TWO_32);
      UnfoldTwice(TWO_31 - x - 1);
    } else {
      WrapsTo(2 * x, 2 * x);
      UnfoldTwice(if x >= 0 then x else -x - 1);
    }
  }

  lemma {:induction false} WrapsTo(x: int, y: int)
    requires -TWO_31 <= y < TWO_31 && (x == y || x == y + TWO_32 || x == y - TWO_32)
    ensures Wrap(x) == y
  {
  }

  lemma {:induction false} UnfoldTwice(n: int)
    requires n >= 0
    ensures Unfold(2 * n) == n && Unfold(2 * n + 1) == -n - 1
  {
  }

  /** Folded numbers are even for non-negative differences and odd for negative ones, and grow with their size. */
  lemma {:induction false} FoldMeaning(x: int)
    requires -TWO_30 <= x < TWO_30
    ensures Fold(x) == if x >= 0 then 2 * x else 2 * -x - 1
  {
    WrapsTo(2 * x, 2 * x);
  }

  // ----- numbers -----------------------------------------------------------------------

  /** Five bits at a time, lowest first; all but the last chunk carry a continuation bit. */
  function Chunks(n: nat): string {
    if n >= 0x20 then [(0x20 + n % 0x20 + 63) as char] + Chunks(n / 0x20) else [(n + 63) as char]
  }

  /** n >> 5 * i. */
  function Shift(n: nat, i: nat): nat
    decreases i
  {
    if i == 0 then n else Shift(n / 0x20, i - 1)
  }

  /** The written characters, by position: character i holds the i-th five bits, every one but the last is marked,
      and there are as many as it takes and no more. */
  ghost predicate Spelled(n: nat, s: string) {
    && s != "" && Shift(n, |s|) == 0 && (|s| > 1 ==> Shift(n, |s| - 1) > 0)
    && forall i {:trigger s[i]} :: 0 <= i < |s| ==>
         s[i] as int == 63 + Shift(n, i) % 0x20 + if i < |s| - 1 then 0x20 else 0
  }

  lemma {:induction false} ChunksSpell(n: nat)
    ensures Spelled(n, Chunks(n))
    decreases n
  {
    var s := Chunks(n);
    if n >= 0x20 {
      var m := n / 0x20;
      ChunksSpell(m);
      assert s[1..] == Chunks(m);
      assert forall i :: 0 < i < |s| ==> s[i] == Chunks(m)[i - 1];
    } else {
      assert n / 0x20 == 0 && Shift(n, 1) == Shift(0, 0);
    }
  }

  method EncodeNumber(number: nat) returns (output: string)
    ensures output == Chunks(number) && Spelled(number, output)
  {
    ChunksSpell(number);
    output := "";
    var n := number;
    while n >= 0x20
      invariant output + Chunks(n) == Chunks(number)
    {
      output := output + [(0x20 + n % 0x20 + 63) as char];
      n := n / 0x20;
    }
    output := output + [(n + 63) as char];
  }

  /** The number at the start of a string, and the position after it; nothing if the string ends
      too early. */
  function ReadNumber(s: string, index: nat): (r: Option<(nat, nat)>)
    requires index <= |s|
    ensures r.Some? ==> index < r.value.1 <= |s|
    decreases |s| - index
  {
    if index == |s| then None
    else
      var b := s[index] as int - 63;
      if b >= 0x20 then
        match ReadNumber(s, index + 1)
        case None => None
        case Some((high, next)) => Some((b % 0x20 + 0x20 * high, next))
      else Some((b % 0x20, index + 1))
  }

  /** A chunk that is not the last one, and the higher bits, shifted into place. */
  lemma {:induction false} Shifted(result: nat, scale: nat, chunk: nat, high: nat)
    ensures result + scale * (chunk + 0x20 * high) == result + chunk * scale + scale * 0x20 * high
    ensures chunk * scale >= 0
  {
  }

  /** The number that the rest of the string adds to what has been read so far. */
  ghost predicate Reading(s: string, start: nat, index: nat, result: nat, scale: nat)
    requires start <= index <= |s|
  {
    match ReadNumber(s, index)
    case None => ReadNumber(s, start).None?
    case Some((high, next)) => ReadNumber(s, start) == Some((result + scale * high, next))
  }

  /** A chunk with the continuation bit. */
  lemma {:induction false} ReadingOn(s: string, start: nat, index: nat, result: nat, scale: nat, chunk: nat)
    requires start <= index < |s| && Reading(s, start, index, result, scale)
    requires s[index] as int - 63 >= 0x20 && chunk == (s[index] as int - 63) % 0x20
    ensures chunk * scale >= 0 && Reading(s, start, index + 1, result + chunk * scale, scale * 0x20)
  {
    match ReadNumber(s, index + 1)
    case None =>
    case Some((high, next)) => Shifted(result, scale, chunk, high);
  }

  /** The last chunk. */
  lemma {:induction false} ReadingLast(s: string, start: nat, index: nat, result: nat, scale: nat, chunk: nat)
    requires start <= index < |s| && Reading(s, start, index, result, scale)
    requires s[index] as int - 63 < 0x20 && chunk == (s[index] as int - 63) % 0x20
    ensures chunk * scale >= 0 && ReadNumber(s, start) == Some((result + chunk * scale, index + 1))
  {
    assert ReadNumber(s, index) == Some((chunk, index + 1));
    assert scale * chunk == chunk * scale;
  }

  /** The reading loop: chunks are shifted into place one after the other. */
  method DecodeNumber(s: string, start: nat) returns (ok: bool, result: nat, index: nat)
    requires start <= |s|
    ensures ok <==> ReadNumber(s, start).Some?
    ensures ok ==> ReadNumber(s, start) == Some((result, index))
  {
    index, result, ok := start, 0, true;
    var scale: nat := 1;
    var more := true;
    while more
      invariant start <= index <= |s| && ok
      invariant if more then Reading(s, start, index, result, scale) else ReadNumber(s, start) == Some((result, index))
      decreases |s| - index, more
    {
      if index == |s| {
        return false, 0, 0;
      }
      var b := s[index] as int - 63;
      if b >= 0x20 {
        ReadingOn(s, start, index, result, scale, b % 0x20);
      } else {
        ReadingLast(s, start, index, result, scale, b % 0x20);
      }
      index := index + 1;
      result := result + b % 0x20 * scale;
      scale := scale * 0x20;
      more := b >= 0x20;
    }
  }

  /** Reading what was written gives the number back and stops right behind it. */
  lemma {:induction false} NumberRoundTrip(before: string, n: nat, after: string)
    ensures ReadNumber(before + Chunks(n) + after, |before|) == Some((n, |before| + |Chunks(n)|))
    decreases n
  {
    var s := before + Chunks(n) + after;
    if n >= 0x20 {
      var c := (0x20 + n % 0x20 + 63) as char;
      assert s[|before|] == c;
      assert s == (before + [c]) + Chunks(n / 0x20) + after;
      NumberRoundTrip(before + [c], n / 0x20, after);
    } else {
      assert s[|before|] == (n + 63) as char;
    }
  }

  // ----- points --------------------------------------------------------------------------

  const ORIGIN := Coordinate(0, 0)

  /** The locations of the necessary segments. */
  function Locations(polyline: seq<SegmentInformation>): seq<Coordinate> {
    if polyline == [] then []
    else (if polyline[0].necessary then [polyline[0].location] else []) + Locations(polyline[1..])
  }

  /** How many of the first i segments are necessary. */
  ghost function Count(polyline: seq<SegmentInformation>, i: nat): nat
    requires i <= |polyline|
    decreases i
  {
    if i == 0 then 0 else (if polyline[0].necessary then 1 else 0) + Count(polyline[1..], i - 1)
  }

  /** By position: a necessary segment has its location in the place that the necessary ones before it leave to it,
      and there are no others. */
  lemma {:induction false} LocationsAt(polyline: seq<SegmentInformation>, i: nat)
    requires i <= |polyline|
    ensures |Locations(polyline)| == Count(polyline, |polyline|)
    ensures i < |polyline| && polyline[i].necessary ==>
              Count(polyline, i) < |Locations(polyline)|
              && Locations(polyline)[Count(polyline, i)] == polyline[i].location
    decreases |polyline|
  {
    if polyline != [] {
      var rest := polyline[1..];
      LocationsAt(rest, if i == 0 then 0 else i - 1);
      assert i > 0 && i < |polyline| ==> rest[i - 1] == polyline[i];
    }
  }

  /** The differences from each point to the next, latitude before longitude. */
  function Deltas(at: Coordinate, points: seq<Coordinate>): seq<int>
    decreases |points|
  {
    if points == [] then []
    else [points[0].lat - at.lat, points[0].lon - at.lon] + Deltas(points[0], points[1..])
  }

  /** By position: two numbers for each point, latitude first, counted from the point before. */
  lemma {:induction false} DeltasAt(at: Coordinate, points: seq<Coordinate>, k: nat)
    requires k < |points|
    ensures |Deltas(at, points)| == 2 * |points|
    ensures var before := if k == 0 then at else points[k - 1];
            && Deltas(at, points)[2 * k] == points[k].lat - before.lat
            && Deltas(at, points)[2 * k + 1] == points[k].lon - before.lon
    decreases |points|
  {
    var rest := Deltas(points[0], points[1..]);
    assert Deltas(at, points)[2..] == rest;
    if |points| > 1 {
      DeltasAt(points[0], points[1..], if k == 0 then 0 else k - 1);
      assert k > 0 ==> Deltas(at, points)[2 * k] == rest[2 * (k - 1)];
      assert k > 0 ==> Deltas(at, points)[2 * k + 1] == rest[2 * (k - 1) + 1];
    } else {
      assert points[1..] == [];
    }
  }

  function FoldAll(deltas: seq<int>): (r: seq<nat>)
    ensures |r| == |deltas| && forall i :: 0 <= i < |r| ==> r[i] == Fold(deltas[i])
  {
    seq(|deltas|, i requires 0 <= i < |deltas| => Fold(deltas[i]))
  }

  function Write(codes: seq<nat>): string {
    if codes == [] then "" else Chunks(codes[0]) + Write(codes[1..])
  }

  /** encode_vector: folds the numbers in place, then writes them. */
  method EncodeVector(deltas: seq<int>) returns (output: string)
    ensures output == Write(FoldAll(deltas))
  {
    var numbers := deltas;
    for i := 0 to |numbers|
      invariant |numbers| == |deltas|
      invariant forall j :: 0 <= j < i ==> numbers[j] == Fold(deltas[j])
      invariant forall j :: i <= j < |numbers| ==> numbers[j] == deltas[j]
    {
      numbers := numbers[i := Wrap(2 * numbers[i])];
      if numbers[i] < 0 {
        numbers := numbers[i := -numbers[i] - 1];
      }
    }
    assert numbers == FoldAll(deltas);
    output := WriteAll(FoldAll(deltas));
  }

  method WriteAll(codes: seq<nat>) returns (output: string)
    ensures output == Write(codes)
  {
    output := "";
    for i := 0 to |codes|
      invariant output + Write(codes[i..]) == Write(codes)
    {
      var chunks := EncodeNumber(codes[i]);
      assert codes[i..][1..] == codes[i + 1..];
      output := output + chunks;
    }
    assert codes[|codes|..] == [];
  }

  lemma {:induction false} NothingEncoded()
    ensures Write(FoldAll(Deltas(ORIGIN, Locations([])))) == ""
  {
    assert FoldAll([]) == [];
  }

  /** get_encoded_string. */
  method Encode(polyline: seq<SegmentInformation>) returns (output: string)
    ensures output == Write(FoldAll(Deltas(ORIGIN, Locations(polyline))))
  {
    if polyline == [] {
      NothingEncoded();
      return "";
    }
    var deltas: seq<int>, previous := [], ORIGIN;
    for i := 0 to |polyline|
      invariant Encoding(polyline, i, previous, deltas)
    {
      var segment := polyline[i];
      EncodingStep(polyline, i, previous, deltas);
      if segment.necessary {
        deltas := deltas + [segment.location.lat - previous.lat, segment.location.lon - previous.lon];
        previous := segment.location;
      }
    }
    EncodingEnd(polyline, previous, deltas);
    output := EncodeVector(deltas);
  }

  /** The differences found before segment i are a beginning of all differences. */
  ghost predicate Encoding(polyline: seq<SegmentInformation>, i: nat, previous: Coordinate, deltas: seq<int>)
    requires i <= |polyline|
  {
    deltas + Deltas(previous, Locations(polyline[i..])) == Deltas(ORIGIN, Locations(polyline))
  }

  lemma {:induction false} EncodingStep(polyline: seq<SegmentInformation>, i: nat, previous: Coordinate,
                                        deltas: seq<int>)
    requires i < |polyline| && Encoding(polyline, i, previous, deltas)
    ensures var segment := polyline[i];
            if segment.necessary then
              Encoding(polyline, i + 1, segment.location,
                       deltas + [segment.location.lat - previous.lat, segment.location.lon - previous.lon])
            else
              Encoding(polyline, i + 1, previous, deltas)
  {
    LocationsStep(polyline, i);
    DeltasStep(deltas, previous, polyline[i].location, Locations(polyline[i + 1..]));
  }

  lemma {:induction false} EncodingEnd(polyline: seq<SegmentInformation>, previous: Coordinate, deltas: seq<int>)
    requires Encoding(polyline, |polyline|, previous, deltas)
    ensures deltas == Deltas(ORIGIN, Locations(polyline))
  {
    assert polyline[|polyline|..] == [] && Locations([]) == [];
    assert deltas + Deltas(previous, []) == deltas;
  }

  lemma {:induction false} LocationsStep(polyline: seq<SegmentInformation>, i: nat)
    requires i < |polyline|
    ensures var rest := Locations(polyline[i + 1..]);
            Locations(polyline[i..]) == if polyline[i].necessary then [polyline[i].location] + rest else rest
  {
    assert polyline[i..][1..] == polyline[i + 1..];
  }

  lemma {:induction false} DeltasStep(deltas: seq<int>, at: Coordinate, p: Coordinate, rest: seq<Coordinate>)
    ensures deltas + Deltas(at, [p] + rest) == deltas + [p.lat - at.lat, p.lon - at.lon] + Deltas(p, rest)
  {
    assert ([p] + rest)[1..] == rest;
  }

  // ----- decoding --------------------------------------------------------------------------

  /** The points of a string from `index` on, counted from the point `at`; nothing if it ends in the
      middle of a point. */
  function Points(s: string, index: nat, at: Coordinate): Option<seq<Coordinate>>
    requires index <= |s|
    decreases |s| - index
  {
    if index == |s| then Some([])
    else
      match ReadNumber(s, index)
      case None => None
      case Some((lat, middle)) =>
        match ReadNumber(s, middle)
        case None => None
        case Some((lon, next)) =>
          var p := Coordinate(at.lat + Unfold(lat), at.lon + Unfold(lon));
          match Points(s, next, p)
          case None => None
          case Some(rest) => Some([p] + rest)
  }

  /** The points read so far are a beginning of all points. */
  ghost predicate Decoding(s: string, index: nat, at: Coordinate, points: seq<Coordinate>)
    requires index <= |s|
  {
    match Points(s, index, at)
    case None => Points(s, 0, ORIGIN).None?
    case Some(rest) => Points(s, 0, ORIGIN) == Some(points + rest)
  }

  lemma {:induction false} DecodingStep(s: string, index: nat, at: Coordinate, points: seq<Coordinate>, lat: nat,
                                        middle: nat, lon: nat, next: nat)
    requires index < |s| && Decoding(s, index, at, points) && ReadNumber(s, index) == Some((lat, middle))
             && ReadNumber(s, middle) == Some((lon, next))
    ensures var p := Coordinate(at.lat + Unfold(lat), at.lon + Unfold(lon)); Decoding(s, next, p, points + [p])
  {
    var p := Coordinate(at.lat + Unfold(lat), at.lon + Unfold(lon));
    match Points(s, next, p)
    case None =>
    case Some(rest) => assert points + ([p] + rest) == points + [p] + rest;
  }

  /** decode_string, up to the scaling of the integer sums. */
  method Decode(s: string) returns (ok: bool, points: seq<Coordinate>)
    ensures ok <==> Points(s, 0, ORIGIN).Some?
    ensures ok ==> Points(s, 0, ORIGIN) == Some(points)
  {
    points := [];
    var index, lat, lng := 0, 0, 0;
    assert forall rest: seq<Coordinate> :: [] + rest == rest;
    while index < |s|
      invariant index <= |s| && Decoding(s, index, Coordinate(lat, lng), points)
    {
      var read, first, middle := DecodeNumber(s, index);
      if !read {
        return false, [];
      }
      var again, second, next := DecodeNumber(s, middle);
      if !again {
        return false, [];
      }
      DecodingStep(s, index, Coordinate(lat, lng), points, first, middle, second, next);
      lat := lat + Unfold(first);
      lng := lng + Unfold(second);
      points := points + [Coordinate(lat, lng)];
      index := next;
    }
    ok := true;
    assert points + [] == points;
  }

  // ----- the round trip ----------------------------------------------------------------------

  lemma {:induction false} ReadPair(s: string, before: string, x: nat, y: nat)
    requires before + Chunks(x) + Chunks(y) <= s
    ensures var middle := |before| + |Chunks(x)|;
            ReadNumber(s, |before|) == Some((x, middle)) && ReadNumber(s, middle) == Some((y, middle + |Chunks(y)|))
  {
    var after := s[|before| + |Chunks(x)| + |Chunks(y)|..];
    assert s == before + Chunks(x) + (Chunks(y) + after);
    NumberRoundTrip(before, x, Chunks(y) + after);
    assert s == (before + Chunks(x)) + Chunks(y) + after;
    NumberRoundTrip(before + Chunks(x), y, after);
  }

  lemma {:induction false} ChunksNotEmpty(n: nat)
    ensures Chunks(n) != ""
  {
  }

  /** The points that a list of folded differences stands for. */
  function PointsOf(at: Coordinate, codes: seq<nat>): seq<Coordinate>
    decreases |codes|
  {
    if |codes| < 2 then []
    else
      var p := Coordinate(at.lat + Unfold(codes[0]), at.lon + Unfold(codes[1]));
      [p] + PointsOf(p, codes[2..])
  }

  /** Decoding reads back every pair of written numbers. */
  lemma {:induction false} ReadBack(s: string, before: string, codes: seq<nat>, at: Coordinate)
    requires |codes| % 2 == 0 && s == before + Write(codes)
    ensures Points(s, |before|, at) == Some(PointsOf(at, codes))
    decreases |codes|
  {
    if codes != [] {
      var x, y := codes[0], codes[1];
      var p, front := Coordinate(at.lat + Unfold(x), at.lon + Unfold(y)), before + Chunks(x) + Chunks(y);
      FirstTwo(s, before, codes);
      ReadBack(s, front, codes[2..], p);
      PointsCons(s, before, at, x, y, p, PointsOf(p, codes[2..]));
    }
  }

  lemma {:induction false} FirstTwo(s: string, before: string, codes: seq<nat>)
    requires |codes| >= 2 && s == before + Write(codes)
    ensures s == before + Chunks(codes[0]) + Chunks(codes[1]) + Write(codes[2..])
    ensures before + Chunks(codes[0]) + Chunks(codes[1]) <= s
  {
    WriteTwo(codes);
    Regroup(before, Chunks(codes[0]), Chunks(codes[1]), Write(codes[2..]));
  }

  lemma {:induction false} Regroup(a: string, b: string, c: string, d: string)
    ensures a + (b + (c + d)) == a + b + c + d
  {
  }

  lemma {:induction false} WriteTwo(codes: seq<nat>)
    requires |codes| >= 2
    ensures Write(codes) == Chunks(codes[0]) + (Chunks(codes[1]) + Write(codes[2..]))
  {
    assert codes[1..][0] == codes[1] && codes[1..][1..] == codes[2..];
  }

  lemma {:induction false} PointsCons(s: string, before: string, at: Coordinate, x: nat, y: nat, p: Coordinate,
                                      rest: seq<Coordinate>)
    requires before + Chunks(x) + Chunks(y) <= s && p == Coordinate(at.lat + Unfold(x), at.lon + Unfold(y))
    requires Points(s, |before + Chunks(x) + Chunks(y)|, p) == Some(rest)
    ensures Points(s, |before|, at) == Some([p] + rest)
  {
    ReadPair(s, before, x, y);
    ChunksNotEmpty(x);
    var middle := |before| + |Chunks(x)|;
    PointsAt(s, |before|, middle, middle + |Chunks(y)|, at, x, y, p, rest);
  }

  lemma {:induction false} PointsAt(s: string, first: nat, middle: nat, next: nat, at: Coordinate, x: nat, y: nat,
                                    p: Coordinate, rest: seq<Coordinate>)
    requires first < |s| && middle <= |s| && next <= |s| && p == Coordinate(at.lat + Unfold(x), at.lon + Unfold(y))
    requires ReadNumber(s, first) == Some((x, middle)) && ReadNumber(s, middle) == Some((y, next))
    requires Points(s, next, p) == Some(rest)
    ensures Points(s, first, at) == Some([p] + rest)
  {
  }

  /** Every difference, from the start over all points, lies in [-bound, bound). */
  ghost predicate Within(bound: int, at: Coordinate, points: seq<Coordinate>)
    decreases |points|
  {
    points == [] ||
    (-bound <= points[0].lat - at.lat < bound && -bound <= points[0].lon - at.lon < bound
     && Within(bound, points[0], points[1..]))
  }

  /** The points that come out when each difference comes back as f makes it. */
  function Summed(f: int -> int, at: Coordinate, deltas: seq<int>): seq<Coordinate>
    decreases |deltas|
  {
    if |deltas| < 2 then []
    else
      var p := Coordinate(at.lat + f(deltas[0]), at.lon + f(deltas[1]));
      [p] + Summed(f, p, deltas[2..])
  }

  lemma {:induction false} CodesSummed(f: int -> int, at: Coordinate, deltas: seq<int>)
    requires forall d :: f(d) == Unfold(Fold(d))
    ensures PointsOf(at, FoldAll(deltas)) == Summed(f, at, deltas)
    decreases |deltas|
  {
    if |deltas| >= 2 {
      assert FoldAll(deltas)[2..] == FoldAll(deltas[2..]);
      CodesSummed(f, Coordinate(at.lat + f(deltas[0]), at.lon + f(deltas[1])), deltas[2..]);
    }
  }

  /** Points come back exactly when every difference does. */
  lemma {:induction false} SumsExact(f: int -> int, bound: int, small: int, at: Coordinate, points: seq<Coordinate>)
    requires forall d :: -bound <= d < bound ==> (f(d) == d <==> -small <= d < small)
    requires Within(bound, at, points)
    ensures |Deltas(at, points)| % 2 == 0
    ensures Summed(f, at, Deltas(at, points)) == points <==> Within(small, at, points)
    decreases |points|
  {
    if points != [] {
      var p, rest := points[0], points[1..];
      var a, b := p.lat - at.lat, p.lon - at.lon;
      SumsExact(f, bound, small, p, rest);
      assert Deltas(at, points)[2..] == Deltas(p, rest);
      var q := Coordinate(at.lat + f(a), at.lon + f(b));
      var l := Summed(f, at, Deltas(at, points));
      assert l == [q] + Summed(f, q, Deltas(p, rest));
      assert l[0] == q && l[1..] == Summed(f, q, Deltas(p, rest));
      assert points == [p] + rest;
    }
  }

  /** Decoding an encoded polyline gives its necessary points back, in order, exactly when all
      differences fit in 31 signed bits. */
  lemma {:induction false} RoundTrip(polyline: seq<SegmentInformation>)
    requires Within(TWO_31, ORIGIN, Locations(polyline))
    ensures Points(Write(FoldAll(Deltas(ORIGIN, Locations(polyline)))), 0, ORIGIN) == Some(Locations(polyline)) <==>
            Within(TWO_30, ORIGIN, Locations(polyline))
  {
    var codes := FoldAll(Deltas(ORIGIN, Locations(polyline)));
    var f := (d: int) => Unfold(Fold(d));
    forall d | -TWO_31 <= d < TWO_31
      ensures f(d) == d <==> -TWO_30 <= d < TWO_30
    {
      FoldRoundTrip(d);
    }
    SumsExact(f, TWO_31, TWO_30, ORIGIN, Locations(polyline));
    CodesSummed(f, ORIGIN, Deltas(ORIGIN, Locations(polyline)));
    assert Write(codes) == "" + Write(codes);
    ReadBack(Write(codes), "", codes, ORIGIN);
  }

  /** A point 2^30 away does not come back. */
  lemma {:induction false} RoundTripFailsHere()
    ensures var polyline := [SegmentInformation(Coordinate(TWO_30, 0), true)];
            Points(Write(FoldAll(Deltas(ORIGIN, Locations(polyline)))), 0, ORIGIN) != Some(Locations(polyline))
  {
    var polyline := [SegmentInformation(Coordinate(TWO_30, 0), true)];
    assert polyline[1..] == [];
    assert Locations(polyline) == [Coordinate(TWO_30, 0)];
    assert Locations(polyline)[1..] == [];
    RoundTrip(polyline);
  }

  /** Degrees are stored in millionths. */
  ghost predicate OnEarth(p: Coordinate) {
    -90_000_000 <= p.lat <= 90_000_000 && -180_000_000 <= p.lon <= 180_000_000
  }

  lemma {:induction false} EarthIsWithin(at: Coordinate, points: seq<Coordinate>)
    requires OnEarth(at) && forall p :: p in points ==> OnEarth(p)
    ensures Within(TWO_30, at, points) && Within(TWO_31, at, points)
    decreases |points|
  {
    if points != [] {
      EarthIsWithin(points[0], points[1..]);
    }
  }

  /** Points on the earth always come back. */
  lemma {:induction false} EarthRoundTrip(polyline: seq<SegmentInformation>)
    requires forall p :: p in Locations(polyline) ==> OnEarth(p)
    ensures Points(Write(FoldAll(Deltas(ORIGIN, Locations(polyline)))), 0, ORIGIN) == Some(Locations(polyline))
  {
    EarthIsWithin(ORIGIN, Locations(polyline));
    RoundTrip(polyline);
  }
}
