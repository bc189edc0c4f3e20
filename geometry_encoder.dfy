/** The geometry side of the adapter: reading the coordinates of a feature
    geometry, whatever runtime shape they arrived in, and writing them as a
    GML 3.1.1 Point, LineString or Polygon in EPSG:3857. */
module GeometryEncoder {
  import opened Wrappers
  import opened JavaStrings

  /** Double.parseDouble and String.format(Locale.US, "%.6f") are floating
      point routines outside the model; they are supplied as parameters.
      parse answers None where parseDouble throws NumberFormatException. */
  datatype Numerics = Numerics(parse: string -> Option<real>, fmt6: real -> string)

  /** The runtime shapes a coordinates object can have. */
  datatype Coord =
    | Num(n: real)              // a java.lang.Number, by its doubleValue()
    | Str(s: string)            // a java.lang.String
    | Arr(items: seq<Coord>)    // an Object[]
    | Lst(items: seq<Coord>)    // a java.util.List
    | Dbl(values: seq<real>)    // a double[]
    | Flt(values: seq<real>)    // a float[], by its values widened to double
    | Other                     // null, a Boolean, a Map, any other object

  /** A geometry as the adapter receives it: a type name and coordinates. */
  datatype FeatureGeometry = FeatureGeometry(geometryType: string, coordinates: Coord)

  /** The exceptions of the encoder. */
  datatype GeometryError =
    | UnconvertibleCoordinate(text: string)   // a String element parseDouble rejects
    | UnsupportedCoordinate(item: Coord)      // an element neither Number nor String
    | MalformedNumber(text: string)           // a part of a bracketed string parseDouble rejects
    | UnrecognizedFormat(coordinates: Coord)  // a shape extraction does not handle
    | PointTooShort(dimensions: nat)
    | LineStringNotAnArray
    | PolygonNotAnArray
    | NoRings
    | RingNotAnArray
    | UnsupportedGeometryType(geometryType: string)

  // ---------------------------------------------------------------------
  // Applying a failing operation to every element, first failure wins
  // ---------------------------------------------------------------------

  /** f applied to each element in order; the first failure is the result. */
  function MapAll<A, B, E>(f: A -> Result<B, E>, xs: seq<A>): Result<seq<B>, E>
    decreases |xs|
  {
    if xs == [] then Ok([])
    else
      match MapAll(f, xs[..|xs| - 1])
      case Err(e) => Err(e)
      case Ok(ys) =>
        match f(xs[|xs| - 1])
        case Err(e) => Err(e)
        case Ok(y) => Ok(ys + [y])
  }

  /** One more element: the prefix result extended by that element's. */
  lemma MapAllSnoc<A, B, E>(f: A -> Result<B, E>, xs: seq<A>, i: nat)
    requires i < |xs|
    ensures MapAll(f, xs[..i + 1]) ==
      match MapAll(f, xs[..i])
      case Err(e) => Err(e)
      case Ok(ys) => (match f(xs[i]) case Err(e) => Err(e) case Ok(y) => Ok(ys + [y]))
  {
    assert xs[..i + 1][..i] == xs[..i];
  }

  /** A successful element extends a successful prefix. */
  lemma MapAllStepOk<A, B, E>(f: A -> Result<B, E>, xs: seq<A>, i: nat, ys: seq<B>, y: B)
    requires i < |xs| && MapAll(f, xs[..i]) == Ok(ys) && f(xs[i]) == Ok(y)
    ensures MapAll(f, xs[..i + 1]) == Ok(ys + [y])
  {
    assert xs[..i + 1][..i] == xs[..i];
  }

  /** Two successful elements give the pair of their results. */
  lemma MapAllPair<A, B, E>(f: A -> Result<B, E>, a: A, b: A, x: B, y: B)
    requires f(a) == Ok(x) && f(b) == Ok(y)
    ensures MapAll(f, [a, b]) == Ok([x, y])
  {
    var xs := [a, b];
    assert xs[..0] == [];
    MapAllStepOk(f, xs, 0, [], x);
    assert [] + [x] == [x];
    MapAllStepOk(f, xs, 1, [x], y);
    assert xs[..2] == xs && [x] + [y] == [x, y];
  }

  /** A failing element after a successful prefix fails the whole
      sequence with its error. */
  lemma MapAllStepErr<A, B, E>(f: A -> Result<B, E>, xs: seq<A>, i: nat, ys: seq<B>, e: E)
    requires i < |xs| && MapAll(f, xs[..i]) == Ok(ys) && f(xs[i]) == Err(e)
    ensures MapAll(f, xs) == Err(e)
  {
    assert xs[..i + 1][..i] == xs[..i];
    MapAllPrefixError(f, xs, i + 1);
  }

  /** A failure on a prefix is the failure of the whole sequence. */
  lemma {:induction false} MapAllPrefixError<A, B, E>(f: A -> Result<B, E>, xs: seq<A>, i: nat)
    requires i <= |xs| && MapAll(f, xs[..i]).Err?
    ensures MapAll(f, xs) == MapAll(f, xs[..i])
    decreases |xs| - i
  {
    if i < |xs| {
      MapAllSnoc(f, xs, i);
      MapAllPrefixError(f, xs, i + 1);
    } else {
      assert xs[..i] == xs;
    }
  }

  /** Success exactly when every element succeeds; the results then line up
      one to one with the elements. */
  lemma {:induction false} MapAllOk<A, B, E>(f: A -> Result<B, E>, xs: seq<A>)
    ensures MapAll(f, xs).Ok? <==> forall k :: 0 <= k < |xs| ==> f(xs[k]).Ok?
    ensures MapAll(f, xs).Ok? ==>
      |MapAll(f, xs).value| == |xs| &&
      forall k :: 0 <= k < |xs| ==> MapAll(f, xs).value[k] == f(xs[k]).value
    decreases |xs|
  {
    if xs != [] {
      var front := xs[..|xs| - 1];
      MapAllOk(f, front);
      assert forall k :: 0 <= k < |front| ==> front[k] == xs[k];
      match MapAll(f, front)
      case Err(e) =>
        var bad :| 0 <= bad < |front| && f(front[bad]).Err?;
        assert f(xs[bad]).Err?;
      case Ok(ys) =>
    }
  }

  /** The result of a failure is the error of the first failing element. */
  lemma {:induction false} MapAllFirstError<A, B, E>(f: A -> Result<B, E>, xs: seq<A>, k: nat)
    requires k < |xs| && f(xs[k]).Err?
    requires forall j :: 0 <= j < k ==> f(xs[j]).Ok?
    ensures MapAll(f, xs) == Err(f(xs[k]).error)
  {
    var prefix := xs[..k];
    assert forall j :: 0 <= j < |prefix| ==> prefix[j] == xs[j];
    MapAllOk(f, prefix);
    MapAllSnoc(f, xs, k);
    MapAllPrefixError(f, xs, k + 1);
  }

  // ---------------------------------------------------------------------
  // extractCoordinatesOriginal and extractCoordinates
  // ---------------------------------------------------------------------

  /** One element of an Object[] or a List: a Number by its value, a String
      through parseDouble, anything else refused. */
  function ScalarOf(num: Numerics, item: Coord): Result<real, GeometryError> {
    match item
    case Num(n) => Ok(n)
    case Str(s) =>
      (match num.parse(s)
       case Some(x) => Ok(x)
       case None => Err(UnconvertibleCoordinate(s)))
    case _ => Err(UnsupportedCoordinate(item))
  }

  function ScalarReader(num: Numerics): Coord -> Result<real, GeometryError> {
    item => ScalarOf(num, item)
  }

  /** One comma-separated part of a bracketed string, trimmed and parsed. */
  function PartOf(num: Numerics, part: string): Result<real, GeometryError> {
    match num.parse(Trim(part))
    case Some(x) => Ok(x)
    case None => Err(MalformedNumber(Trim(part)))
  }

  function PartReader(num: Numerics): string -> Result<real, GeometryError> {
    part => PartOf(num, part)
  }

  /** A string such as "[-59740.77, 5339847.06]": opening and closing
      brackets. */
  predicate Bracketed(s: string) {
    StartsWith(s, "[") && EndsWith(s, "]")
  }

  lemma BracketedLength(s: string)
    requires Bracketed(s)
    ensures |s| >= 2
  {
    assert s[0] == s[..1][0] == '[';
    assert s[|s| - 1] == s[|s| - 1..][0] == ']';
  }

  /** The text between the brackets, and its comma-separated parts as
      String.split(",") gives them. */
  function BracketParts(s: string): seq<string>
    requires Bracketed(s)
  {
    BracketedLength(s);
    Split(s[1..|s| - 1], ',')
  }

  /** extractCoordinatesOriginal: the numbers the coordinates hold, by
      runtime shape. */
  function ExtractRaw(num: Numerics, c: Coord): Result<seq<real>, GeometryError> {
    match c
    case Arr(items) => MapAll(ScalarReader(num), items)
    case Lst(items) => MapAll(ScalarReader(num), items)
    case Str(s) =>
      if Bracketed(s) then MapAll(PartReader(num), BracketParts(s))
      else Err(UnrecognizedFormat(c))
    case Dbl(values) => Ok(values)
    case Flt(values) => Ok(values)
    case _ => Err(UnrecognizedFormat(c))
  }

  /** extractCoordinates: the extracted numbers cut to the first two. */
  function Extract(num: Numerics, c: Coord): (r: Result<seq<real>, GeometryError>)
    ensures r.Ok? <==> ExtractRaw(num, c).Ok?
    ensures r.Err? ==> r == ExtractRaw(num, c)
    ensures r.Ok? ==>
      var raw := ExtractRaw(num, c).value;
      |r.value| == (if |raw| < 2 then |raw| else 2) && r.value <= raw
  {
    match ExtractRaw(num, c)
    case Err(e) => Err(e)
    case Ok(v) => Ok(if |v| >= 2 then [v[0], v[1]] else v)
  }

  function PointReader(num: Numerics): Coord -> Result<seq<real>, GeometryError> {
    c => Extract(num, c)
  }

  /** The elements of an Object[] or a List, converted one by one into a
      fresh double[]. */
  method ConvertElements(num: Numerics, items: seq<Coord>) returns (r: Result<seq<real>, GeometryError>)
    ensures r == MapAll(ScalarReader(num), items)
  {
    var result := new real[|items|];
    var i := 0;
    while i < |items|
      invariant 0 <= i <= |items|
      invariant MapAll(ScalarReader(num), items[..i]) == Ok(result[..i])
    {
      var item := items[i];
      var x: real;
      if item.Num? {
        x := item.n;
      } else if item.Str? {
        var parsed := num.parse(item.s);
        if parsed.None? {
          MapAllStepErr(ScalarReader(num), items, i, result[..i], UnconvertibleCoordinate(item.s));
          return Err(UnconvertibleCoordinate(item.s));
        }
        x := parsed.value;
      } else {
        MapAllStepErr(ScalarReader(num), items, i, result[..i], UnsupportedCoordinate(item));
        return Err(UnsupportedCoordinate(item));
      }
      MapAllStepOk(ScalarReader(num), items, i, result[..i], x);
      ghost var before := result[..i];
      result[i] := x;
      assert result[..i + 1] == before + [x];
      i := i + 1;
    }
    assert items[..i] == items && result[..] == result[..i];
    return Ok(result[..]);
  }

  /** The parts of a bracketed string, trimmed and parsed into a fresh
      double[]. */
  method ParseParts(num: Numerics, parts: seq<string>) returns (r: Result<seq<real>, GeometryError>)
    ensures r == MapAll(PartReader(num), parts)
  {
    var result := new real[|parts|];
    var i := 0;
    while i < |parts|
      invariant 0 <= i <= |parts|
      invariant MapAll(PartReader(num), parts[..i]) == Ok(result[..i])
    {
      var text := Trim(parts[i]);
      var parsed := num.parse(text);
      if parsed.None? {
        MapAllStepErr(PartReader(num), parts, i, result[..i], MalformedNumber(text));
        return Err(MalformedNumber(text));
      }
      MapAllStepOk(PartReader(num), parts, i, result[..i], parsed.value);
      ghost var before := result[..i];
      result[i] := parsed.value;
      assert result[..i + 1] == before + [parsed.value];
      i := i + 1;
    }
    assert parts[..i] == parts && result[..] == result[..i];
    return Ok(result[..]);
  }

  /** A float[] copied element by element into a double[]. */
  method WidenFloats(values: seq<real>) returns (r: seq<real>)
    ensures |r| == |values| && forall k :: 0 <= k < |values| ==> r[k] == values[k]
  {
    var result := new real[|values|];
    var i := 0;
    while i < |values|
      invariant 0 <= i <= |values|
      invariant forall k :: 0 <= k < i ==> result[k] == values[k]
    {
      result[i] := values[i];
      i := i + 1;
    }
    return result[..];
  }

  method ExtractCoordinatesOriginal(num: Numerics, c: Coord) returns (r: Result<seq<real>, GeometryError>)
    ensures r == ExtractRaw(num, c)
  {
    match c
    case Arr(items) =>
      r := ConvertElements(num, items);
    case Lst(items) =>
      r := ConvertElements(num, items);
    case Str(s) =>
      if Bracketed(s) {
        BracketedLength(s);
        var inner := s[1..|s| - 1];
        var parts := Split(inner, ',');
        r := ParseParts(num, parts);
      } else {
        r := Err(UnrecognizedFormat(c));
      }
    case Dbl(values) =>
      r := Ok(values);
    case Flt(values) =>
      var widened := WidenFloats(values);
      assert widened == values;
      r := Ok(widened);
    case _ =>
      r := Err(UnrecognizedFormat(c));
  }

  method ExtractCoordinates(num: Numerics, c: Coord) returns (r: Result<seq<real>, GeometryError>)
    ensures r == Extract(num, c)
  {
    var coords := ExtractCoordinatesOriginal(num, c);
    if coords.Err? {
      return coords;
    }
    var v := coords.value;
    if |v| >= 2 {
      return Ok([v[0], v[1]]);
    }
    return coords;
  }

  // ---------------------------------------------------------------------
  // What extraction accepts
  // ---------------------------------------------------------------------

  /** An Object[] or a List succeeds exactly when every element is a Number
      or a String parseDouble accepts, and then yields one number per
      element, in order. */
  lemma ExtractElements(num: Numerics, items: seq<Coord>)
    ensures ExtractRaw(num, Arr(items)) == ExtractRaw(num, Lst(items))
    ensures ExtractRaw(num, Arr(items)).Ok? <==>
      forall k :: 0 <= k < |items| ==> ScalarOf(num, items[k]).Ok?
    ensures ExtractRaw(num, Arr(items)).Ok? ==>
      var v := ExtractRaw(num, Arr(items)).value;
      |v| == |items| && forall k :: 0 <= k < |items| ==> v[k] == ScalarOf(num, items[k]).value
  {
    MapAllOk(ScalarReader(num), items);
  }

  /** The first element that is neither a Number nor a convertible String
      decides the failure; a nested array is such an element. */
  lemma ExtractFirstBadElement(num: Numerics, items: seq<Coord>, k: nat)
    requires k < |items| && ScalarOf(num, items[k]).Err?
    requires forall j :: 0 <= j < k ==> ScalarOf(num, items[j]).Ok?
    ensures ExtractRaw(num, Arr(items)) == Err(ScalarOf(num, items[k]).error)
    ensures items[k].Arr? ==> ExtractRaw(num, Arr(items)) == Err(UnsupportedCoordinate(items[k]))
  {
    MapAllFirstError(ScalarReader(num), items, k);
  }

  /** A string must be bracketed; inside the brackets each comma-separated
      part, trimmed, must parse. */
  lemma ExtractString(num: Numerics, s: string)
    ensures !Bracketed(s) ==> ExtractRaw(num, Str(s)) == Err(UnrecognizedFormat(Str(s)))
    ensures Bracketed(s) ==>
      (ExtractRaw(num, Str(s)).Ok? <==>
        forall k :: 0 <= k < |BracketParts(s)| ==> num.parse(Trim(BracketParts(s)[k])).Some?)
    ensures Bracketed(s) && ExtractRaw(num, Str(s)).Ok? ==>
      var parts := BracketParts(s);
      var v := ExtractRaw(num, Str(s)).value;
      |v| == |parts| && forall k :: 0 <= k < |parts| ==> Some(v[k]) == num.parse(Trim(parts[k]))
  {
    if Bracketed(s) {
      var parts := BracketParts(s);
      MapAllOk(PartReader(num), parts);
      assert forall k :: 0 <= k < |parts| ==>
        (PartOf(num, parts[k]).Ok? <==> num.parse(Trim(parts[k])).Some?);
    }
  }

  /** A bare Number, and null or any object of another kind, is not a
      coordinates format. */
  lemma ExtractUnrecognized(num: Numerics, c: Coord)
    requires c.Num? || c.Other?
    ensures ExtractRaw(num, c) == Err(UnrecognizedFormat(c))
  {
  }

  // ---------------------------------------------------------------------
  // buildPointGml
  // ---------------------------------------------------------------------

  const PointOpen: string := "<gml:Point srsName=\"EPSG:3857\" srsDimension=\"2\"><gml:pos>"
  const PointClose: string := "</gml:pos></gml:Point>"

  /** "%.6f %.6f" of a coordinate pair. */
  function PairText(num: Numerics, x: real, y: real): string {
    num.fmt6(x) + " " + num.fmt6(y)
  }

  /** buildPointGml */
  function PointGml(num: Numerics, c: Coord): Result<string, GeometryError> {
    match Extract(num, c)
    case Err(e) => Err(e)
    case Ok(v) =>
      if |v| < 2 then Err(PointTooShort(|v|))
      else Ok(PointOpen + PairText(num, v[0], v[1]) + PointClose)
  }

  /** A point is written from the first two numbers of its coordinates and
      fails when there are fewer than two; the others are never looked
      at. */
  lemma PointFromFirstTwo(num: Numerics, c: Coord)
    ensures PointGml(num, c).Ok? <==> ExtractRaw(num, c).Ok? && |ExtractRaw(num, c).value| >= 2
    ensures PointGml(num, c).Ok? ==>
      var raw := ExtractRaw(num, c).value;
      PointGml(num, c).value == PointOpen + PairText(num, raw[0], raw[1]) + PointClose
    ensures ExtractRaw(num, c).Ok? && |ExtractRaw(num, c).value| < 2 ==>
      PointGml(num, c) == Err(PointTooShort(|ExtractRaw(num, c).value|))
    ensures ExtractRaw(num, c).Err? ==> PointGml(num, c) == Err(ExtractRaw(num, c).error)
  {
    match ExtractRaw(num, c)
    case Err(e) =>
    case Ok(raw) =>
      if |raw| >= 2 {
        assert Extract(num, c).value == [raw[0], raw[1]];
      }
  }

  // ---------------------------------------------------------------------
  // The position lists of buildLineStringGml and buildPolygonGml
  // ---------------------------------------------------------------------

  /** The StringBuilder of a position list after the extracted points ps: a
      point with fewer than two numbers is skipped, and the one at index i
      is preceded by a space whenever i > 0, whether or not anything was
      written before it. */
  function PosText(num: Numerics, ps: seq<seq<real>>): string
    decreases |ps|
  {
    if ps == [] then ""
    else
      var i := |ps| - 1;
      var p := ps[i];
      PosText(num, ps[..i]) +
        (if |p| < 2 then "" else (if i > 0 then " " else "") + PairText(num, p[0], p[1]))
  }

  /** The position list of a sequence of points: every point is extracted
      first, in order, so any failing point fails the list. */
  function PosList(num: Numerics, pts: seq<Coord>): Result<string, GeometryError> {
    match MapAll(PointReader(num), pts)
    case Err(e) => Err(e)
    case Ok(ps) => Ok(PosText(num, ps))
  }

  /** The points written: those with at least two numbers, in order. */
  function Kept(ps: seq<seq<real>>): (r: seq<seq<real>>)
    ensures |r| <= |ps|
    ensures forall k :: 0 <= k < |r| ==> |r[k]| >= 2
    decreases |ps|
  {
    if ps == [] then []
    else
      var p := ps[|ps| - 1];
      Kept(ps[..|ps| - 1]) + (if |p| < 2 then [] else [p])
  }

  /** The pair texts of a sequence of points of at least two numbers. */
  function PairTexts(num: Numerics, ps: seq<seq<real>>): (r: seq<string>)
    requires forall k :: 0 <= k < |ps| ==> |ps[k]| >= 2
    ensures |r| == |ps|
  {
    seq(|ps|, k requires 0 <= k < |ps| => PairText(num, ps[k][0], ps[k][1]))
  }

  lemma PosTextSnoc(num: Numerics, ps: seq<seq<real>>, p: seq<real>)
    ensures PosText(num, ps + [p]) == PosText(num, ps) +
      (if |p| < 2 then "" else (if |ps| > 0 then " " else "") + PairText(num, p[0], p[1]))
    ensures Kept(ps + [p]) == Kept(ps) + (if |p| < 2 then [] else [p])
  {
    assert (ps + [p])[..|ps|] == ps;
    KeptSnoc(ps, p);
  }

  lemma KeptSnoc(ps: seq<seq<real>>, p: seq<real>)
    ensures Kept(ps + [p]) == Kept(ps) + (if |p| < 2 then [] else [p])
  {
    assert (ps + [p])[..|ps|] == ps;
  }

  lemma PairTextsSnoc(num: Numerics, ps: seq<seq<real>>, p: seq<real>)
    requires forall k :: 0 <= k < |ps| ==> |ps[k]| >= 2
    requires |p| >= 2
    ensures PairTexts(num, ps + [p]) == PairTexts(num, ps) + [PairText(num, p[0], p[1])]
  {
  }

  /** The shape of a position list: its leading space, then the pair texts
      joined. */
  function PosShape(num: Numerics, ps: seq<seq<real>>): string {
    (if |ps| > 0 && |ps[0]| < 2 && Kept(ps) != [] then " " else "") +
      Join(PairTexts(num, Kept(ps)), " ")
  }

  /** A position list is the pair texts of the written points joined by
      single spaces, plus one leading space exactly when the first point was
      skipped and some later point is written. */
  lemma {:induction false} PosTextShape(num: Numerics, ps: seq<seq<real>>)
    ensures PosText(num, ps) == PosShape(num, ps)
    decreases |ps|
  {
    if ps != [] {
      var front := ps[..|ps| - 1];
      var p := ps[|ps| - 1];
      assert ps == front + [p];
      PosTextShape(num, front);
      PosTextSnoc(num, front, p);
      if |p| >= 2 {
        PosTextKeptStep(num, front, p);
      } else if front != [] {
        assert front[0] == ps[0];
        assert Kept(front) + [] == Kept(front);
      }
    }
  }

  /** A written first point is the first point written. */
  lemma {:induction false} KeptFirst(ps: seq<seq<real>>)
    requires |ps| > 0 && |ps[0]| >= 2
    ensures Kept(ps) != [] && Kept(ps)[0] == ps[0]
    decreases |ps|
  {
    var front := ps[..|ps| - 1];
    var p := ps[|ps| - 1];
    assert ps == front + [p];
    KeptSnoc(front, p);
    if front != [] {
      assert front[0] == ps[0];
      KeptFirst(front);
    }
  }

  /** The step of PosTextShape for a written point. */
  lemma PosTextKeptStep(num: Numerics, front: seq<seq<real>>, p: seq<real>)
    requires |p| >= 2
    ensures PosShape(num, front + [p]) == PosShape(num, front) +
      (if |front| > 0 then " " else "") + PairText(num, p[0], p[1])
  {
    var ps := front + [p];
    var k := Kept(front);
    PosTextSnoc(num, front, p);
    PairTextsSnoc(num, k, p);
    if front == [] {
      assert Kept(ps) == [p];
    } else {
      assert ps[0] == front[0];
      if k == [] {
        if |front[0]| >= 2 {
          KeptFirst(front);
        }
        assert PosShape(num, front) == "";
      } else {
        JoinSnoc(PairTexts(num, k), PairText(num, p[0], p[1]), " ");
      }
    }
  }

  /** When no point is skipped there is no leading space: the list is the
      pair texts joined by single spaces. */
  lemma {:induction false} AllKept(ps: seq<seq<real>>)
    requires forall k :: 0 <= k < |ps| ==> |ps[k]| >= 2
    ensures Kept(ps) == ps
    decreases |ps|
  {
    if ps != [] {
      var front := ps[..|ps| - 1];
      AllKept(front);
      assert ps == front + [ps[|ps| - 1]];
    }
  }

  lemma PosTextAllKept(num: Numerics, ps: seq<seq<real>>)
    requires forall k :: 0 <= k < |ps| ==> |ps[k]| >= 2
    ensures PosText(num, ps) == Join(PairTexts(num, ps), " ")
  {
    AllKept(ps);
    PosTextShape(num, ps);
  }

  /** A skipped first point leaves a leading space before the next written
      one. */
  lemma LeadingSpaceAfterSkippedPoint(num: Numerics, x: real, a: real, b: real)
    ensures PosText(num, [[x], [a, b]]) == " " + PairText(num, a, b)
  {
    PosTextSnoc(num, [], [x]);
    PosTextSnoc(num, [[x]], [a, b]);
    assert [] + [[x]] == [[x]] && [[x]] + [[a, b]] == [[x], [a, b]];
  }

  /** A position list fails only when a point fails extraction; a point with
      fewer than two numbers is skipped, not refused. */
  lemma PosListFailures(num: Numerics, pts: seq<Coord>)
    ensures PosList(num, pts).Ok? <==> forall k :: 0 <= k < |pts| ==> ExtractRaw(num, pts[k]).Ok?
  {
    MapAllOk(PointReader(num), pts);
  }

  /** The StringBuilder loop shared by buildLineStringGml and the ring loops
      of buildPolygonGml. */
  method BuildPosList(num: Numerics, pts: seq<Coord>) returns (r: Result<string, GeometryError>)
    ensures r == PosList(num, pts)
  {
    var sb := "";
    ghost var ps: seq<seq<real>> := [];
    var i := 0;
    while i < |pts|
      invariant 0 <= i <= |pts|
      invariant MapAll(PointReader(num), pts[..i]) == Ok(ps)
      invariant |ps| == i && sb == PosText(num, ps)
    {
      MapAllSnoc(PointReader(num), pts, i);
      var point := ExtractCoordinates(num, pts[i]);
      if point.Err? {
        MapAllPrefixError(PointReader(num), pts, i + 1);
        return Err(point.error);
      }
      var p := point.value;
      assert (ps + [p])[..i] == ps;
      ps := ps + [p];
      if |p| >= 2 {
        if i > 0 {
          sb := sb + " ";
        }
        sb := sb + PairText(num, p[0], p[1]);
      }
      i := i + 1;
    }
    assert pts[..i] == pts;
    return Ok(sb);
  }

  // ---------------------------------------------------------------------
  // buildLineStringGml
  // ---------------------------------------------------------------------

  const LineStringOpen: string := "<gml:LineString srsName=\"EPSG:3857\" srsDimension=\"2\"><gml:posList>"
  const LineStringClose: string := "</gml:posList></gml:LineString>"

  /** buildLineStringGml: the coordinates must be an Object[] of points. */
  function LineStringGml(num: Numerics, c: Coord): Result<string, GeometryError> {
    match c
    case Arr(pts) =>
      (match PosList(num, pts)
       case Err(e) => Err(e)
       case Ok(s) => Ok(LineStringOpen + s + LineStringClose))
    case _ => Err(LineStringNotAnArray)
  }

  method BuildLineStringGml(num: Numerics, c: Coord) returns (r: Result<string, GeometryError>)
    ensures r == LineStringGml(num, c)
  {
    if !c.Arr? {
      return Err(LineStringNotAnArray);
    }
    var coords := BuildPosList(num, c.items);
    if coords.Err? {
      return Err(coords.error);
    }
    return Ok(LineStringOpen + coords.value + LineStringClose);
  }

  /** A line string is refused unless its coordinates are an Object[] (a
      List is refused too); otherwise it fails only on a failing point and
      wraps the position list of its points. */
  lemma LineStringShape(num: Numerics, c: Coord)
    ensures !c.Arr? ==> LineStringGml(num, c) == Err(LineStringNotAnArray)
    ensures c.Arr? ==>
      (LineStringGml(num, c).Ok? <==> forall k :: 0 <= k < |c.items| ==> ExtractRaw(num, c.items[k]).Ok?)
    ensures c.Arr? && LineStringGml(num, c).Ok? ==>
      LineStringGml(num, c).value == LineStringOpen + PosList(num, c.items).value + LineStringClose
  {
    if c.Arr? {
      PosListFailures(num, c.items);
    }
  }

  // ---------------------------------------------------------------------
  // buildPolygonGml
  // ---------------------------------------------------------------------

  const PolygonOpen: string := "<gml:Polygon srsName=\"EPSG:3857\" srsDimension=\"2\">"
  const PolygonClose: string := "</gml:Polygon>"

  function ExteriorBlock(coords: string): string {
    "<gml:exterior><gml:LinearRing>" + "<gml:posList>" + coords + "</gml:posList>" +
      "</gml:LinearRing></gml:exterior>"
  }

  function InteriorBlock(coords: string): string {
    "<gml:interior><gml:LinearRing>" + "<gml:posList>" + coords + "</gml:posList>" +
      "</gml:LinearRing></gml:interior>"
  }

  /** The position list of one ring, which must be an Object[]. */
  function RingText(num: Numerics, ring: Coord): Result<string, GeometryError> {
    match ring
    case Arr(pts) => PosList(num, pts)
    case _ => Err(RingNotAnArray)
  }

  function RingReader(num: Numerics): Coord -> Result<string, GeometryError> {
    ring => RingText(num, ring)
  }

  /** The interior blocks of the rings after the first, in order. */
  function InteriorBlocks(texts: seq<string>): string
    decreases |texts|
  {
    if texts == [] then ""
    else InteriorBlocks(texts[..|texts| - 1]) + InteriorBlock(texts[|texts| - 1])
  }

  /** buildPolygonGml: the first ring is the exterior, the others interior
      rings (holes); every ring is read before the polygon is returned. */
  function PolygonGml(num: Numerics, c: Coord): Result<string, GeometryError> {
    match c
    case Arr(rings) =>
      if |rings| == 0 then Err(NoRings)
      else
        (match MapAll(RingReader(num), rings)
         case Err(e) => Err(e)
         case Ok(texts) =>
           Ok(RingsWritten(texts) + PolygonClose))
    case _ => Err(PolygonNotAnArray)
  }

  /** The cast of a ring to Object[] and its position-list loop. */
  method BuildRing(num: Numerics, ring: Coord) returns (r: Result<string, GeometryError>)
    ensures r == RingText(num, ring)
  {
    if !ring.Arr? {
      return Err(RingNotAnArray);
    }
    r := BuildPosList(num, ring.items);
  }

  /** What the polygon StringBuilder holds once the rings with the
      position lists texts have been appended. */
  function RingsWritten(texts: seq<string>): string
    requires |texts| >= 1
  {
    PolygonOpen + ExteriorBlock(texts[0]) + InteriorBlocks(texts[1..])
  }

  /** One more interior ring adds its block at the end. */
  lemma RingsWrittenSnoc(texts: seq<string>, t: string)
    requires |texts| >= 1
    ensures RingsWritten(texts + [t]) == RingsWritten(texts) + InteriorBlock(t)
  {
    assert (texts + [t])[1..] == texts[1..] + [t];
    assert (texts[1..] + [t])[..|texts[1..]|] == texts[1..];
    assert (texts + [t])[0] == texts[0];
  }

  lemma RingsWrittenExterior(t: string)
    ensures RingsWritten([t]) == PolygonOpen + ExteriorBlock(t)
  {
    assert [t][1..] == [];
  }

  method BuildPolygonGml(num: Numerics, c: Coord) returns (r: Result<string, GeometryError>)
    ensures r == PolygonGml(num, c)
  {
    if !c.Arr? {
      return Err(PolygonNotAnArray);
    }
    var rings := c.items;
    if |rings| == 0 {
      return Err(NoRings);
    }
    var polygon := PolygonOpen;
    assert MapAll(RingReader(num), rings[..0]) == Ok([]) by {
      assert rings[..0] == [];
    }
    var exterior := BuildRing(num, rings[0]);
    if exterior.Err? {
      MapAllStepErr(RingReader(num), rings, 0, [], exterior.error);
      return Err(exterior.error);
    }
    MapAllStepOk(RingReader(num), rings, 0, [], exterior.value);
    polygon := polygon + ExteriorBlock(exterior.value);
    ghost var texts := [exterior.value];
    assert [] + texts == texts;
    RingsWrittenExterior(exterior.value);
    var i := 1;
    while i < |rings|
      invariant 1 <= i <= |rings|
      invariant MapAll(RingReader(num), rings[..i]) == Ok(texts)
      invariant |texts| == i
      invariant polygon == RingsWritten(texts)
    {
      var interior := BuildRing(num, rings[i]);
      if interior.Err? {
        MapAllStepErr(RingReader(num), rings, i, texts, interior.error);
        return Err(interior.error);
      }
      MapAllStepOk(RingReader(num), rings, i, texts, interior.value);
      RingsWrittenSnoc(texts, interior.value);
      texts := texts + [interior.value];
      polygon := polygon + InteriorBlock(interior.value);
      i := i + 1;
    }
    assert rings[..i] == rings;
    return Ok(polygon + PolygonClose);
  }

  /** A polygon succeeds exactly when its coordinates are an Object[] of at
      least one ring, every ring is an Object[] and every point extracts. It
      is then one exterior block for the first ring followed by one interior
      block for each further ring, in ring order. */
  lemma PolygonShape(num: Numerics, rings: seq<Coord>)
    ensures PolygonGml(num, Arr(rings)) == Err(NoRings) <==> |rings| == 0
    ensures PolygonGml(num, Arr(rings)).Ok? <==>
      |rings| > 0 && forall k :: 0 <= k < |rings| ==> RingText(num, rings[k]).Ok?
    ensures PolygonGml(num, Arr(rings)).Ok? ==>
      var texts := MapAll(RingReader(num), rings).value;
      |texts| == |rings| &&
      (forall k :: 0 <= k < |rings| ==> texts[k] == RingText(num, rings[k]).value) &&
      PolygonGml(num, Arr(rings)).value ==
        PolygonOpen + ExteriorBlock(texts[0]) + InteriorBlocks(texts[1..]) + PolygonClose
  {
    MapAllOk(RingReader(num), rings);
    if |rings| > 0 {
      PolygonRingErrors(num, rings);
    }
  }

  /** The error of MapAll is the error of one of the elements. */
  lemma {:induction false} MapAllErrorFrom<A, B, E>(f: A -> Result<B, E>, xs: seq<A>)
    ensures MapAll(f, xs).Err? ==> exists k :: 0 <= k < |xs| && f(xs[k]) == Err(MapAll(f, xs).error)
    decreases |xs|
  {
    if xs != [] {
      var front := xs[..|xs| - 1];
      MapAllErrorFrom(f, front);
      if MapAll(f, front).Err? {
        var k :| 0 <= k < |front| && f(front[k]) == Err(MapAll(f, front).error);
        assert xs[k] == front[k];
      }
    }
  }

  /** The exceptions extraction itself raises. */
  predicate IsExtractionError(e: GeometryError) {
    e.UnconvertibleCoordinate? || e.UnsupportedCoordinate? || e.MalformedNumber? || e.UnrecognizedFormat?
  }

  lemma ExtractErrors(num: Numerics, c: Coord)
    ensures Extract(num, c).Err? ==> IsExtractionError(Extract(num, c).error)
  {
    match c
    case Arr(items) => MapAllErrorFrom(ScalarReader(num), items);
    case Lst(items) => MapAllErrorFrom(ScalarReader(num), items);
    case Str(s) =>
      if Bracketed(s) {
        MapAllErrorFrom(PartReader(num), BracketParts(s));
      }
    case _ =>
  }

  /** A position list fails only with an extraction error. */
  lemma PosListErrors(num: Numerics, pts: seq<Coord>)
    ensures PosList(num, pts).Err? ==> IsExtractionError(PosList(num, pts).error)
  {
    MapAllErrorFrom(PointReader(num), pts);
    if MapAll(PointReader(num), pts).Err? {
      var k :| 0 <= k < |pts| && Extract(num, pts[k]) == Err(MapAll(PointReader(num), pts).error);
      ExtractErrors(num, pts[k]);
    }
  }

  /** A ring fails with an extraction error or because it is no array. */
  lemma RingErrors(num: Numerics, ring: Coord)
    ensures RingText(num, ring).Err? ==>
      IsExtractionError(RingText(num, ring).error) || RingText(num, ring).error == RingNotAnArray
  {
    if ring.Arr? {
      PosListErrors(num, ring.items);
    }
  }

  /** The errors a polygon with at least one ring can fail with. */
  lemma PolygonRingErrors(num: Numerics, rings: seq<Coord>)
    requires |rings| > 0
    ensures PolygonGml(num, Arr(rings)).Err? ==>
      IsExtractionError(PolygonGml(num, Arr(rings)).error) ||
      PolygonGml(num, Arr(rings)).error == RingNotAnArray
  {
    MapAllErrorFrom(RingReader(num), rings);
    if MapAll(RingReader(num), rings).Err? {
      var k :| 0 <= k < |rings| && RingText(num, rings[k]) == Err(MapAll(RingReader(num), rings).error);
      RingErrors(num, rings[k]);
    }
  }

  // ---------------------------------------------------------------------
  // convertGeometryToGml
  // ---------------------------------------------------------------------

  /** convertGeometryToGml: dispatch on the lower-cased type name. */
  function GeometryGml(num: Numerics, g: FeatureGeometry): Result<string, GeometryError> {
    var t := Lower(g.geometryType);
    if t == "point" then PointGml(num, g.coordinates)
    else if t == "linestring" then LineStringGml(num, g.coordinates)
    else if t == "polygon" then PolygonGml(num, g.coordinates)
    else Err(UnsupportedGeometryType(g.geometryType))
  }

  method ConvertGeometryToGml(num: Numerics, g: FeatureGeometry) returns (r: Result<string, GeometryError>)
    ensures r == GeometryGml(num, g)
  {
    var t := Lower(g.geometryType);
    if t == "point" {
      r := PointGml(num, g.coordinates);
    } else if t == "linestring" {
      r := BuildLineStringGml(num, g.coordinates);
    } else if t == "polygon" {
      r := BuildPolygonGml(num, g.coordinates);
    } else {
      r := Err(UnsupportedGeometryType(g.geometryType));
    }
  }

  /** Only point, linestring and polygon, in any ASCII case, are encoded;
      every other type name is refused with its own name. */
  lemma DispatchedTypes(num: Numerics, g: FeatureGeometry)
    ensures GeometryGml(num, g).Err? && GeometryGml(num, g).error.UnsupportedGeometryType? <==>
      Lower(g.geometryType) !in {"point", "linestring", "polygon"}
    ensures Lower(g.geometryType) !in {"point", "linestring", "polygon"} ==>
      GeometryGml(num, g) == Err(UnsupportedGeometryType(g.geometryType))
  {
    var t := Lower(g.geometryType);
    var c := g.coordinates;
    if t == "point" {
      ExtractErrors(num, c);
    } else if t == "linestring" {
      if c.Arr? {
        PosListErrors(num, c.items);
      }
    } else if t == "polygon" {
      if c.Arr? && |c.items| > 0 {
        PolygonRingErrors(num, c.items);
      }
    }
  }

  /** "[]" holds one empty part, which parseDouble rejects. */
  lemma EmptyBracketsRefused(num: Numerics)
    requires num.parse("") == None
    ensures ExtractRaw(num, Str("[]")) == Err(MalformedNumber(""))
  {
    assert Bracketed("[]");
    assert "[]"[1..1] == "";
    var parts := BracketParts("[]");
    assert parts == [""];
    assert Trim("") == "";
    assert PartReader(num)("") == Err(MalformedNumber(""));
    assert parts[..0] == [] && MapAll(PartReader(num), parts[..0]) == Ok([]);
    MapAllStepErr(PartReader(num), parts, 0, [], MalformedNumber(""));
  }

  lemma SplitOneTwo()
    ensures Split("1, 2", ',') == ["1", " 2"]
  {
    RawSplitAfterSeparator("1", " 2", ',');
    assert "1" + [','] + " 2" == "1, 2";
    RawSplitNoSeparator("1", ',');
    assert RawSplit("1, 2", ',') == ["1", " 2"];
    SplitKeepsNonEmptySegments("1, 2", ',');
  }

  lemma BracketPartsOneTwo()
    ensures Bracketed("[1, 2]") && BracketParts("[1, 2]") == ["1", " 2"]
  {
    assert "[1, 2]"[..1] == "[" && "[1, 2]"[5..] == "]";
    assert "[1, 2]"[1..5] == "1, 2";
    SplitOneTwo();
  }

  lemma TrimOne()
    ensures Trim("1") == "1"
  {
    assert TrimStart("1") == "1";
    assert TrimEnd("1") == "1";
  }

  lemma TrimSpaceTwo()
    ensures Trim(" 2") == "2"
  {
    assert " 2"[1..] == "2";
    assert TrimStart("2") == "2";
    assert TrimStart(" 2") == "2";
    assert TrimEnd("2") == "2";
  }

  /** A part reads as the number its trimmed text parses to. */
  lemma PartRead(num: Numerics, part: string, t: string, x: real)
    requires Trim(part) == t && num.parse(t) == Some(x)
    ensures PartReader(num)(part) == Ok(x)
  {
  }

  lemma PartsOneTwoRead(num: Numerics, x: real, y: real)
    requires num.parse("1") == Some(x) && num.parse("2") == Some(y)
    ensures PartReader(num)("1") == Ok(x) && PartReader(num)(" 2") == Ok(y)
  {
    TrimOne();
    PartRead(num, "1", "1", x);
    TrimSpaceTwo();
    PartRead(num, " 2", "2", y);
  }

  lemma PairPartsRead(num: Numerics, x: real, y: real)
    requires num.parse("1") == Some(x) && num.parse("2") == Some(y)
    ensures MapAll(PartReader(num), ["1", " 2"]) == Ok([x, y])
  {
    PartsOneTwoRead(num, x, y);
    MapAllPair(PartReader(num), "1", " 2", x, y);
  }

  /** A JSON-like string "[1, 2]" yields the two numbers its trimmed parts
      parse to. */
  lemma BracketedPairParsed(num: Numerics, x: real, y: real)
    requires num.parse("1") == Some(x) && num.parse("2") == Some(y)
    ensures ExtractRaw(num, Str("[1, 2]")) == Ok([x, y])
  {
    BracketPartsOneTwo();
    var parts := ["1", " 2"];
    PairPartsRead(num, x, y);
    assert MapAll(PartReader(num), parts) == Ok([x, y]);
  }

  /** The type names of the drawing client are matched in any case: "Point"
      is written as a point, "LineString" as a line string. */
  lemma CapitalisedTypesDispatched(num: Numerics, c: Coord)
    ensures GeometryGml(num, FeatureGeometry("Point", c)) == PointGml(num, c)
    ensures GeometryGml(num, FeatureGeometry("LineString", c)) == LineStringGml(num, c)
  {
    var l := Lower("Point");
    assert |l| == 5 && l[0] == 'p' && l[1] == 'o' && l[2] == 'i' && l[3] == 'n' && l[4] == 't';
    assert l == "point";
    l := Lower("LineString");
    assert |l| == 10 && l[0] == 'l' && l[1] == 'i' && l[2] == 'n' && l[3] == 'e' && l[4] == 's';
    assert l[5] == 't' && l[6] == 'r' && l[7] == 'i' && l[8] == 'n' && l[9] == 'g';
    assert l == "linestring";
  }

  /** The multi-geometries a layer schema can announce are not encoded. */
  lemma MultiGeometriesRefused(num: Numerics, c: Coord)
    ensures GeometryGml(num, FeatureGeometry("MultiPolygon", c)) == Err(UnsupportedGeometryType("MultiPolygon"))
    ensures GeometryGml(num, FeatureGeometry("MultiLineString", c)) == Err(UnsupportedGeometryType("MultiLineString"))
  {
    assert |Lower("MultiPolygon")| == 12 && |Lower("MultiLineString")| == 15;
  }
}
