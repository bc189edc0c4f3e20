/** The WFS-T side of the adapter: the Update transaction sent for an edited
    feature (clause 12 of OGC WFS 1.1.0), the escaping of property values
    with the predefined entities of section 4.6 of XML 1.0, and the verdict
    drawn from the server's response. */
module TransactionBuilder {
  import opened Wrappers
  import opened JavaStrings
  import opened GeometryEncoder

  /** A property value: null, or an object by its String.valueOf text. */
  datatype Value = Null | Present(text: string)

  /** The catalog entry of a layer: its workspace, its layer name on the
      server and its display name. */
  datatype LayerCatalog = LayerCatalog(workspace: string, geoserverLayerName: string, name: string)

  /** A feature to update: its id, its geometry and its properties in the
      iteration order of the map that holds them. */
  datatype Feature = Feature(id: string, geometry: FeatureGeometry, properties: seq<(string, Value)>)

  // ---------------------------------------------------------------------
  // isEmptyValue
  // ---------------------------------------------------------------------

  /** isEmptyValue: null, or a text that is blank or reads "null" or
      "undefined" in any case once trimmed. */
  predicate IsEmptyValue(v: Value) {
    match v
    case Null => true
    case Present(text) =>
      var t := Trim(text);
      t == "" || EqualsIgnoreCase("null", t) || EqualsIgnoreCase("undefined", t)
  }

  /** A string with every character case-folded. */
  function Fold(s: string): (r: string)
    ensures |r| == |s| && forall i :: 0 <= i < |s| ==> r[i] == FoldChar(s[i])
  {
    seq(|s|, i requires 0 <= i < |s| => FoldChar(s[i]))
  }

  /** A lower-case ASCII word equals a string ignoring case exactly when
      the string folds onto the word. */
  lemma IgnoreCaseFolds(word: string, t: string)
    requires forall i :: 0 <= i < |word| ==> 'a' <= word[i] <= 'z'
    ensures EqualsIgnoreCase(word, t) <==> Fold(t) == word
  {
    assert forall i :: 0 <= i < |word| ==> FoldChar(word[i]) == word[i];
    if Fold(t) == word {
      assert forall i :: 0 <= i < |t| ==> FoldChar(t[i]) == Fold(t)[i];
    }
  }

  lemma NullIsLowerCase()
    ensures forall i :: 0 <= i < |"null"| ==> 'a' <= "null"[i] <= 'z'
  {
    var w := "null";
    assert w[0] == 'n' && w[1] == 'u' && w[2] == 'l' && w[3] == 'l';
  }

  lemma UndefinedIsLowerCase()
    ensures forall i :: 0 <= i < |"undefined"| ==> 'a' <= "undefined"[i] <= 'z'
  {
    var w := "undefined";
    assert w[0] == 'u' && w[1] == 'n' && w[2] == 'd' && w[3] == 'e' && w[4] == 'f';
    assert w[5] == 'i' && w[6] == 'n' && w[7] == 'e' && w[8] == 'd';
  }

  /** A value is empty exactly when it is null or its trimmed text folds
      onto "", "null" or "undefined". */
  lemma EmptyValueExactly(v: Value)
    ensures IsEmptyValue(v) <==>
      v.Null? || Fold(Trim(v.text)) == "" || Fold(Trim(v.text)) == "null" || Fold(Trim(v.text)) == "undefined"
  {
    if v.Present? {
      var t := Trim(v.text);
      NullIsLowerCase();
      UndefinedIsLowerCase();
      IgnoreCaseFolds("null", t);
      IgnoreCaseFolds("undefined", t);
      assert t == "" <==> Fold(t) == "";
    }
  }

  /** "NULL" and " Undefined " are empty, so is the blank text; "0" and
      "false" are values. */
  lemma EmptyValueExamples()
    ensures IsEmptyValue(Present("NULL")) && IsEmptyValue(Present("   "))
    ensures !IsEmptyValue(Present("0")) && !IsEmptyValue(Present("false"))
  {
    NullWordIsEmpty();
    BlankIsEmpty();
    ZeroIsValue();
    FalseIsValue();
  }

  lemma NullWordIsEmpty()
    ensures IsEmptyValue(Present("NULL"))
  {
    assert TrimStart("NULL") == "NULL" && TrimEnd("NULL") == "NULL";
    var t := "NULL";
    assert FoldChar(t[0]) == 'n' && FoldChar(t[1]) == 'u' && FoldChar(t[2]) == 'l' && FoldChar(t[3]) == 'l';
  }

  lemma BlankIsEmpty()
    ensures IsEmptyValue(Present("   "))
  {
    assert |Trim("   ")| <= 3;
    assert Trim("   ") == "";
  }

  lemma ZeroIsValue()
    ensures !IsEmptyValue(Present("0"))
  {
    assert TrimStart("0") == "0";
    assert TrimEnd("0") == "0";
    assert Trim("0") == "0";
    assert |"0"| != |"null"| && |"0"| != |"undefined"|;
  }

  lemma FalseIsValue()
    ensures !IsEmptyValue(Present("false"))
  {
    assert TrimStart("false") == "false";
    assert TrimEnd("false") == "false";
    assert |Trim("false")| == 5;
  }

  // ---------------------------------------------------------------------
  // escapeXml
  // ---------------------------------------------------------------------

  /** escapeXml: "" for null, otherwise the five replacements in order,
      ampersand first. */
  function EscapeXml(value: Option<string>): string {
    match value
    case None => ""
    case Some(v) =>
      Replace(Replace(Replace(Replace(Replace(v, "&", "&amp;"), "<", "&lt;"), ">", "&gt;"),
        "\"", "&quot;"), "'", "&apos;")
  }

  /** The entity of one character, or the character itself. */
  function EscapeChar(c: char): string {
    if c == '&' then "&amp;"
    else if c == '<' then "&lt;"
    else if c == '>' then "&gt;"
    else if c == '"' then "&quot;"
    else if c == '\'' then "&apos;"
    else [c]
  }

  /** Escaping character by character. */
  function EscapeChars(s: string): string
    decreases |s|
  {
    if s == [] then "" else EscapeChar(s[0]) + EscapeChars(s[1..])
  }

  /** The five passes of escapeXml distribute over concatenation. */
  lemma EscapeXmlConcat(a: string, b: string)
    ensures EscapeXml(Some(a + b)) == EscapeXml(Some(a)) + EscapeXml(Some(b))
  {
    ReplaceCharConcat(a, b, '&', "&amp;");
    var a1, b1 := Replace(a, "&", "&amp;"), Replace(b, "&", "&amp;");
    ReplaceCharConcat(a1, b1, '<', "&lt;");
    var a2, b2 := Replace(a1, "<", "&lt;"), Replace(b1, "<", "&lt;");
    ReplaceCharConcat(a2, b2, '>', "&gt;");
    var a3, b3 := Replace(a2, ">", "&gt;"), Replace(b2, ">", "&gt;");
    ReplaceCharConcat(a3, b3, '"', "&quot;");
    var a4, b4 := Replace(a3, "\"", "&quot;"), Replace(b3, "\"", "&quot;");
    ReplaceCharConcat(a4, b4, '\'', "&apos;");
  }

  /** Replacing the leading occurrence of a one-character string. */
  lemma ReplaceSingle(c: char, rep: string)
    ensures Replace([c], [c], rep) == rep
  {
    ReplaceLeading([c], "", rep);
    assert [c] + "" == [c];
  }

  lemma EscapeAmpersand()
    ensures EscapeXml(Some("&")) == "&amp;"
  {
    ReplaceSingle('&', "&amp;");
    ReplaceCharAbsent("&amp;", '<', "&lt;");
    ReplaceCharAbsent("&amp;", '>', "&gt;");
    ReplaceCharAbsent("&amp;", '"', "&quot;");
    ReplaceCharAbsent("&amp;", '\'', "&apos;");
  }

  lemma EscapeLess()
    ensures EscapeXml(Some("<")) == "&lt;"
  {
    ReplaceCharAbsent("<", '&', "&amp;");
    ReplaceSingle('<', "&lt;");
    ReplaceCharAbsent("&lt;", '>', "&gt;");
    ReplaceCharAbsent("&lt;", '"', "&quot;");
    ReplaceCharAbsent("&lt;", '\'', "&apos;");
  }

  lemma EscapeGreater()
    ensures EscapeXml(Some(">")) == "&gt;"
  {
    ReplaceCharAbsent(">", '&', "&amp;");
    ReplaceCharAbsent(">", '<', "&lt;");
    ReplaceSingle('>', "&gt;");
    ReplaceCharAbsent("&gt;", '"', "&quot;");
    ReplaceCharAbsent("&gt;", '\'', "&apos;");
  }

  lemma EscapeQuote()
    ensures EscapeXml(Some("\"")) == "&quot;"
  {
    ReplaceCharAbsent("\"", '&', "&amp;");
    ReplaceCharAbsent("\"", '<', "&lt;");
    ReplaceCharAbsent("\"", '>', "&gt;");
    ReplaceSingle('"', "&quot;");
    ReplaceCharAbsent("&quot;", '\'', "&apos;");
  }

  lemma EscapeApostrophe()
    ensures EscapeXml(Some("'")) == "&apos;"
  {
    ReplaceCharAbsent("'", '&', "&amp;");
    ReplaceCharAbsent("'", '<', "&lt;");
    ReplaceCharAbsent("'", '>', "&gt;");
    ReplaceCharAbsent("'", '"', "&quot;");
    ReplaceSingle('\'', "&apos;");
  }

  lemma EscapeOther(c: char)
    requires c !in "&<>\"'"
    ensures EscapeXml(Some([c])) == [c]
  {
    ReplaceCharAbsent([c], '&', "&amp;");
    ReplaceCharAbsent([c], '<', "&lt;");
    ReplaceCharAbsent([c], '>', "&gt;");
    ReplaceCharAbsent([c], '"', "&quot;");
    ReplaceCharAbsent([c], '\'', "&apos;");
  }

  /** On one character escapeXml gives its entity. */
  lemma EscapeOneChar(c: char)
    ensures EscapeXml(Some([c])) == EscapeChar(c)
  {
    if c == '&' {
      EscapeAmpersand();
    } else if c == '<' {
      EscapeLess();
    } else if c == '>' {
      EscapeGreater();
    } else if c == '"' {
      EscapeQuote();
    } else if c == '\'' {
      EscapeApostrophe();
    } else {
      EscapeOther(c);
    }
  }

  /** Because the ampersand is replaced first, no entity written by a later
      pass is escaped again: escapeXml replaces each character by its own
      entity. */
  lemma {:induction false} EscapeXmlCharwise(s: string)
    ensures EscapeXml(Some(s)) == EscapeChars(s)
    decreases |s|
  {
    if s != [] {
      assert s == [s[0]] + s[1..];
      EscapeXmlConcat([s[0]], s[1..]);
      EscapeOneChar(s[0]);
      EscapeXmlCharwise(s[1..]);
    }
  }

  /** The escaped text holds no raw '<', '>', '"' or '\''. */
  lemma {:induction false} EscapedCharsClean(s: string)
    ensures forall c :: c in "<>\"'" ==> c !in EscapeChars(s)
    decreases |s|
  {
    if s != [] {
      EscapedCharsClean(s[1..]);
      var e := EscapeChar(s[0]);
      assert forall c :: c in "<>\"'" ==> c !in e;
      assert EscapeChars(s) == e + EscapeChars(s[1..]);
    }
  }

  lemma EscapeXmlClean(value: Option<string>)
    ensures forall c :: c in "<>\"'" ==> c !in EscapeXml(value)
  {
    if value.Some? {
      EscapeXmlCharwise(value.value);
      EscapedCharsClean(value.value);
    }
  }

  /** Reading the five predefined entities back, left to right. */
  function Unescape(t: string): string
    decreases |t|
  {
    if t == [] then ""
    else if StartsWith(t, "&amp;") then "&" + Unescape(t[5..])
    else if StartsWith(t, "&lt;") then "<" + Unescape(t[4..])
    else if StartsWith(t, "&gt;") then ">" + Unescape(t[4..])
    else if StartsWith(t, "&quot;") then "\"" + Unescape(t[6..])
    else if StartsWith(t, "&apos;") then "'" + Unescape(t[6..])
    else [t[0]] + Unescape(t[1..])
  }

  lemma UnescapeAmpersand(rest: string)
    ensures Unescape("&amp;" + rest) == "&" + Unescape(rest)
  {
    var t := "&amp;" + rest;
    assert StartsWith(t, "&amp;") by { assert t[..5] == "&amp;"; }
    assert t[5..] == rest;
  }

  lemma UnescapeLess(rest: string)
    ensures Unescape("&lt;" + rest) == "<" + Unescape(rest)
  {
    var t := "&lt;" + rest;
    assert t[1] == 'l';
    NotPrefixAt(t, "&amp;", 1);
    assert StartsWith(t, "&lt;") by { assert t[..4] == "&lt;"; }
    assert t[4..] == rest;
  }

  lemma UnescapeGreater(rest: string)
    ensures Unescape("&gt;" + rest) == ">" + Unescape(rest)
  {
    var t := "&gt;" + rest;
    assert t[1] == 'g';
    NotPrefixAt(t, "&amp;", 1);
    NotPrefixAt(t, "&lt;", 1);
    assert StartsWith(t, "&gt;") by { assert t[..4] == "&gt;"; }
    assert t[4..] == rest;
  }

  lemma UnescapeQuote(rest: string)
    ensures Unescape("&quot;" + rest) == "\"" + Unescape(rest)
  {
    var t := "&quot;" + rest;
    assert t[1] == 'q';
    NotPrefixAt(t, "&amp;", 1);
    NotPrefixAt(t, "&lt;", 1);
    NotPrefixAt(t, "&gt;", 1);
    assert StartsWith(t, "&quot;") by { assert t[..6] == "&quot;"; }
    assert t[6..] == rest;
  }

  lemma UnescapeApostrophe(rest: string)
    ensures Unescape("&apos;" + rest) == "'" + Unescape(rest)
  {
    var t := "&apos;" + rest;
    assert t[1] == 'a' && t[2] == 'p';
    NotPrefixAt(t, "&amp;", 2);
    NotPrefixAt(t, "&lt;", 1);
    NotPrefixAt(t, "&gt;", 1);
    NotPrefixAt(t, "&quot;", 1);
    assert StartsWith(t, "&apos;") by { assert t[..6] == "&apos;"; }
    assert t[6..] == rest;
  }

  lemma UnescapePlain(c: char, rest: string)
    requires c != '&'
    ensures Unescape([c] + rest) == [c] + Unescape(rest)
  {
    var t := [c] + rest;
    assert t[0] == c && t[1..] == rest;
  }

  /** The entity of a character, followed by anything, reads back as that
      character. */
  lemma UnescapeStep(c: char, rest: string)
    ensures Unescape(EscapeChar(c) + rest) == [c] + Unescape(rest)
  {
    if c == '&' {
      UnescapeAmpersand(rest);
    } else if c == '<' {
      UnescapeLess(rest);
    } else if c == '>' {
      UnescapeGreater(rest);
    } else if c == '"' {
      UnescapeQuote(rest);
    } else if c == '\'' {
      UnescapeApostrophe(rest);
    } else {
      UnescapePlain(c, rest);
    }
  }

  lemma {:induction false} UnescapeEscapeChars(s: string)
    ensures Unescape(EscapeChars(s)) == s
    decreases |s|
  {
    if s != [] {
      UnescapeStep(s[0], EscapeChars(s[1..]));
      UnescapeEscapeChars(s[1..]);
      assert [s[0]] + s[1..] == s;
    }
  }

  /** Unescaping the five entities in the output of escapeXml gives back
      its input; null gives "". */
  lemma EscapeXmlRoundTrip(value: Option<string>)
    ensures value.Some? ==> Unescape(EscapeXml(value)) == value.value
    ensures value.None? ==> EscapeXml(value) == ""
  {
    if value.Some? {
      EscapeXmlCharwise(value.value);
      UnescapeEscapeChars(value.value);
    }
  }

  // ---------------------------------------------------------------------
  // The property updates of buildWfsUpdateTransaction
  // ---------------------------------------------------------------------

  /** Stream.filter: the elements that pass the test, in order. */
  function Filter<T>(keep: T -> bool, xs: seq<T>): (r: seq<T>)
    ensures |r| <= |xs|
    ensures forall k :: 0 <= k < |r| ==> keep(r[k])
    decreases |xs|
  {
    if xs == [] then []
    else
      var last := xs[|xs| - 1];
      Filter(keep, xs[..|xs| - 1]) + (if keep(last) then [last] else [])
  }

  /** Every passing element is kept once for each time it occurs, and no
      failing one is kept. */
  lemma {:induction false} FilterCounts<T>(keep: T -> bool, xs: seq<T>)
    ensures forall x :: multiset(Filter(keep, xs))[x] == if keep(x) then multiset(xs)[x] else 0
    decreases |xs|
  {
    if xs != [] {
      var front, last := xs[..|xs| - 1], xs[|xs| - 1];
      assert xs == front + [last];
      FilterCounts(keep, front);
    }
  }

  /** The filter distributes over concatenation. */
  lemma {:induction false} FilterConcat<T>(keep: T -> bool, a: seq<T>, b: seq<T>)
    ensures Filter(keep, a + b) == Filter(keep, a) + Filter(keep, b)
    decreases |b|
  {
    if b == [] {
      assert a + b == a;
    } else {
      var front := b[..|b| - 1];
      assert (a + b)[..|a + b| - 1] == a + front;
      FilterConcat(keep, a, front);
    }
  }

  /** Where a passing element lands in the filtered sequence. */
  lemma {:induction false} FilterPosition<T>(keep: T -> bool, xs: seq<T>, k: nat) returns (j: nat)
    requires k < |xs| && keep(xs[k])
    ensures j < |Filter(keep, xs)| && Filter(keep, xs)[j] == xs[k]
    decreases |xs|
  {
    var front := xs[..|xs| - 1];
    if k == |xs| - 1 {
      j := |Filter(keep, front)|;
    } else {
      j := FilterPosition(keep, front, k);
    }
  }

  /** Where a kept element comes from. */
  lemma {:induction false} FilterOrigin<T>(keep: T -> bool, xs: seq<T>, j: nat) returns (k: nat)
    requires j < |Filter(keep, xs)|
    ensures k < |xs| && xs[k] == Filter(keep, xs)[j]
    decreases |xs|
  {
    var front, last := xs[..|xs| - 1], xs[|xs| - 1];
    if j < |Filter(keep, front)| {
      k := FilterOrigin(keep, front, j);
      assert xs[k] == front[k];
    } else {
      k := |xs| - 1;
    }
  }

  /** The test of the property stream: the value is not empty. */
  predicate KeepsProperty(p: (string, Value)) {
    !IsEmptyValue(p.1)
  }

  /** The properties the stream keeps: those whose value is not empty, in
      order. */
  function Emitted(props: seq<(string, Value)>): (r: seq<(string, Value)>)
    ensures |r| <= |props|
    ensures forall k :: 0 <= k < |r| ==> !IsEmptyValue(r[k].1) && r[k].1.Present?
  {
    var r := Filter(KeepsProperty, props);
    assert forall k :: 0 <= k < |r| ==> KeepsProperty(r[k]);
    r
  }

  /** Every non-empty property is kept once for each time it occurs, and
      no empty one is kept. */
  lemma EmittedCounts(props: seq<(string, Value)>)
    ensures forall p :: multiset(Emitted(props))[p] ==
                       if IsEmptyValue(p.1) then 0 else multiset(props)[p]
  {
    FilterCounts(KeepsProperty, props);
  }

  /** The filter keeps the order of the map: it distributes over
      concatenation. */
  lemma EmittedConcat(a: seq<(string, Value)>, b: seq<(string, Value)>)
    ensures Emitted(a + b) == Emitted(a) + Emitted(b)
  {
    FilterConcat(KeepsProperty, a, b);
  }

  /** One wfs:Property element: the key as it is, the value's text
      escaped. */
  function PropertyElement(key: string, text: string): string {
    "<wfs:Property><wfs:Name>" + key + "</wfs:Name><wfs:Value>" + EscapeXml(Some(text)) +
      "</wfs:Value></wfs:Property>"
  }

  function PropertyElements(ps: seq<(string, Value)>): (r: seq<string>)
    requires forall k :: 0 <= k < |ps| ==> ps[k].1.Present?
    ensures |r| == |ps|
  {
    seq(|ps|, k requires 0 <= k < |ps| => PropertyElement(ps[k].0, ps[k].1.text))
  }

  /** The property updates: the kept properties' elements joined by
      newlines. */
  function PropertyUpdates(props: seq<(string, Value)>): string {
    Join(PropertyElements(Emitted(props)), "\n")
  }

  /** Each part of a join occurs in it. */
  lemma {:induction false} JoinContainsParts(parts: seq<string>, sep: string, k: nat)
    requires k < |parts|
    ensures Contains(Join(parts, sep), parts[k])
    decreases |parts|
  {
    if |parts| == 1 {
      assert Join(parts, sep) == "" + parts[k] + "";
      ContainsInfix("", parts[k], "");
    } else {
      var front := parts[..|parts| - 1];
      if k == |parts| - 1 {
        assert Join(parts, sep) == Join(front, sep) + sep + parts[k] + "";
        ContainsInfix(Join(front, sep) + sep, parts[k], "");
      } else {
        JoinContainsParts(front, sep, k);
        assert Join(parts, sep) == Join(front, sep) + (sep + parts[|parts| - 1]);
        ContainsTransitive(Join(parts, sep), Join(front, sep), parts[k]);
        assert Contains(Join(parts, sep), Join(front, sep)) by {
          ContainsInfix("", Join(front, sep), sep + parts[|parts| - 1]);
          assert "" + Join(front, sep) + (sep + parts[|parts| - 1]) == Join(parts, sep);
        }
      }
    }
  }

  /** Every kept property appears in the updates with its key unescaped and
      its value escaped. */
  lemma PropertyWritten(props: seq<(string, Value)>, k: nat)
    requires k < |props| && !IsEmptyValue(props[k].1)
    ensures Contains(PropertyUpdates(props), PropertyElement(props[k].0, props[k].1.text))
  {
    var j := FilterPosition(KeepsProperty, props, k);
    JoinContainsParts(PropertyElements(Emitted(props)), "\n", j);
  }

  /** An element that does not hold the newline character. */
  lemma {:induction false} EscapeCharsKeepsNewline(s: string)
    requires '\n' !in s
    ensures '\n' !in EscapeChars(s)
    decreases |s|
  {
    if s != [] {
      EscapeCharsKeepsNewline(s[1..]);
      assert EscapeChars(s) == EscapeChar(s[0]) + EscapeChars(s[1..]);
    }
  }

  /** A property element is one line when its key and value text are. */
  lemma ElementOneLine(key: string, text: string)
    requires '\n' !in key && '\n' !in text
    ensures '\n' !in PropertyElement(key, text)
  {
    EscapeXmlCharwise(text);
    EscapeCharsKeepsNewline(text);
    var open, middle, close := "<wfs:Property><wfs:Name>", "</wfs:Name><wfs:Value>", "</wfs:Value></wfs:Property>";
    assert '\n' !in open && '\n' !in middle && '\n' !in close;
    assert PropertyElement(key, text) == open + key + middle + EscapeChars(text) + close;
  }

  /** When no key and no value text holds a newline, the updates are one
      line per kept property, in order. */
  lemma PropertyLines(props: seq<(string, Value)>)
    requires forall k :: 0 <= k < |props| ==> '\n' !in props[k].0
    requires forall k :: 0 <= k < |props| ==> props[k].1.Present? ==> '\n' !in props[k].1.text
    requires Emitted(props) != []
    ensures RawSplit(PropertyUpdates(props), '\n') == PropertyElements(Emitted(props))
  {
    var ps := Emitted(props);
    var lines := PropertyElements(ps);
    forall j | 0 <= j < |lines|
      ensures '\n' !in lines[j]
    {
      var k := FilterOrigin(KeepsProperty, props, j);
      ElementOneLine(ps[j].0, ps[j].1.text);
    }
    assert Join(lines, ['\n']) == PropertyUpdates(props);
    RawSplitOfJoin(lines, '\n');
  }

  // ---------------------------------------------------------------------
  // buildWfsUpdateTransaction
  // ---------------------------------------------------------------------

  /** The text block of buildWfsUpdateTransaction, cut at its
      placeholders (its incidental indentation of sixteen spaces removed, as
      the Java text block does). */
  const Prolog: string :=
    "<?xml version=\"1.0\" encoding=\"UTF-8\"?>\n" +
    "<wfs:Transaction version=\"1.1.0\" service=\"WFS\"\n" +
    "    xmlns:wfs=\"http://www.opengis.net/wfs\"\n" +
    "    xmlns:ogc=\"http://www.opengis.net/ogc\"\n" +
    "    xmlns:gml=\"http://www.opengis.net/gml\">\n" +
    "    "
  const AfterUpdateTag: string := "\n        <wfs:Property>\n            "
  const AfterGeometry: string := "\n        </wfs:Property>\n        "
  const AfterUpdates: string := "\n        <ogc:Filter>\n            "
  const Epilog: string := "\n        </ogc:Filter>\n    </wfs:Update>\n</wfs:Transaction>\n"

  function UpdateTag(workspace: string, layerName: string): string {
    "<wfs:Update typeName=\"" + workspace + ":" + layerName + "\">"
  }

  function GeometryProperty(gml: string): string {
    "<wfs:Name>geom</wfs:Name>\n            <wfs:Value>" + gml + "</wfs:Value>"
  }

  function FeatureIdFilter(fid: string): string {
    "<ogc:FeatureId fid=\"" + fid + "\"/>"
  }

  /** The text block of the transaction, its five placeholders filled. */
  function TransactionText(workspace: string, layerName: string, gml: string, updates: string, fid: string): string {
    Prolog + UpdateTag(workspace, layerName) + AfterUpdateTag + GeometryProperty(gml) + AfterGeometry +
      updates + AfterUpdates + FeatureIdFilter(fid) + Epilog
  }

  /** buildWfsUpdateTransaction: the geometry is converted first, and any
      exception it raises aborts the transaction. */
  function WfsUpdateTransaction(num: Numerics, layer: LayerCatalog, feature: Feature): Result<string, GeometryError> {
    match GeometryGml(num, feature.geometry)
    case Err(e) => Err(e)
    case Ok(gml) =>
      Ok(TransactionText(layer.workspace, layer.geoserverLayerName, gml,
        PropertyUpdates(feature.properties), feature.id))
  }

  method BuildWfsUpdateTransaction(num: Numerics, layer: LayerCatalog, feature: Feature)
    returns (r: Result<string, GeometryError>)
    ensures r == WfsUpdateTransaction(num, layer, feature)
  {
    var geometryGml := ConvertGeometryToGml(num, feature.geometry);
    if geometryGml.Err? {
      return Err(geometryGml.error);
    }
    var propertyUpdates := PropertyUpdates(feature.properties);
    r := Ok(TransactionText(layer.workspace, layer.geoserverLayerName, geometryGml.value,
      propertyUpdates, feature.id));
  }

  /** The transaction fails exactly when the geometry does, with its
      error. */
  lemma TransactionNeedsGeometry(num: Numerics, layer: LayerCatalog, feature: Feature)
    ensures WfsUpdateTransaction(num, layer, feature).Err? <==> GeometryGml(num, feature.geometry).Err?
    ensures GeometryGml(num, feature.geometry).Err? ==>
      WfsUpdateTransaction(num, layer, feature) == Err(GeometryGml(num, feature.geometry).error)
  {
  }

  /** The transaction names the layer as workspace:layer, carries the
      geometry verbatim as the value of geom, and filters on the feature
      id, which is not escaped. */
  lemma TransactionContents(num: Numerics, layer: LayerCatalog, feature: Feature)
    requires WfsUpdateTransaction(num, layer, feature).Ok?
    ensures var t := WfsUpdateTransaction(num, layer, feature).value;
      Contains(t, UpdateTag(layer.workspace, layer.geoserverLayerName)) &&
      Contains(t, GeometryProperty(GeometryGml(num, feature.geometry).value)) &&
      Contains(t, FeatureIdFilter(feature.id)) &&
      Contains(t, PropertyUpdates(feature.properties))
  {
    PiecesContained(Prolog, UpdateTag(layer.workspace, layer.geoserverLayerName), AfterUpdateTag,
      GeometryProperty(GeometryGml(num, feature.geometry).value), AfterGeometry,
      PropertyUpdates(feature.properties), AfterUpdates, FeatureIdFilter(feature.id), Epilog);
  }

  /** The pieces in the even places of a concatenation of nine occur in
      it. */
  lemma PiecesContained(a: string, b: string, c: string, d: string, e: string, f: string,
                        g: string, h: string, i: string)
    ensures var t := a + b + c + d + e + f + g + h + i;
      Contains(t, b) && Contains(t, d) && Contains(t, f) && Contains(t, h)
  {
    var t := a + b + c + d + e + f + g + h + i;
    assert t == a + b + (c + d + e + f + g + h + i);
    ContainsInfix(a, b, c + d + e + f + g + h + i);
    assert t == a + b + c + d + (e + f + g + h + i);
    ContainsInfix(a + b + c, d, e + f + g + h + i);
    assert t == a + b + c + d + e + f + (g + h + i);
    ContainsInfix(a + b + c + d + e, f, g + h + i);
    ContainsInfix(a + b + c + d + e + f + g, h, i);
  }

  /** Every non-empty property is in the transaction, key unescaped and
      value escaped. */
  lemma TransactionWritesProperty(num: Numerics, layer: LayerCatalog, feature: Feature, k: nat)
    requires WfsUpdateTransaction(num, layer, feature).Ok?
    requires k < |feature.properties| && !IsEmptyValue(feature.properties[k].1)
    ensures Contains(WfsUpdateTransaction(num, layer, feature).value,
      PropertyElement(feature.properties[k].0, feature.properties[k].1.text))
  {
    TransactionContents(num, layer, feature);
    PropertyWritten(feature.properties, k);
    ContainsTransitive(WfsUpdateTransaction(num, layer, feature).value,
      PropertyUpdates(feature.properties),
      PropertyElement(feature.properties[k].0, feature.properties[k].1.text));
  }

  // ---------------------------------------------------------------------
  // parseWfsResponse and updateFeature
  // ---------------------------------------------------------------------

  const TotalUpdatedOne: string := "<wfs:totalUpdated>1</wfs:totalUpdated>"
  const LooseTotalUpdatedOne: string := "totalUpdated>1</"

  /** parseWfsResponse: false for a null body; otherwise true when one
      update is reported or no exception report is seen. */
  predicate ParseWfsResponse(body: Option<string>) {
    match body
    case None => false
    case Some(b) =>
      Contains(b, TotalUpdatedOne) || Contains(b, LooseTotalUpdatedOne) ||
      (!Contains(b, "<ows:Exception") && !Contains(b, "<ServiceException"))
  }

  /** The fully qualified test is subsumed by the loose one: the verdict is
      true exactly when the body reports one update loosely or holds no
      exception marker. */
  lemma ResponseVerdict(body: string)
    ensures Contains(body, TotalUpdatedOne) ==> Contains(body, LooseTotalUpdatedOne)
    ensures ParseWfsResponse(Some(body)) <==>
      Contains(body, LooseTotalUpdatedOne) ||
      (!Contains(body, "<ows:Exception") && !Contains(body, "<ServiceException"))
  {
    assert TotalUpdatedOne == "<wfs:" + LooseTotalUpdatedOne + "wfs:totalUpdated>";
    ContainsInfix("<wfs:", LooseTotalUpdatedOne, "wfs:totalUpdated>");
    if Contains(body, TotalUpdatedOne) {
      ContainsTransitive(body, TotalUpdatedOne, LooseTotalUpdatedOne);
    }
  }

  /** A null body is a failure; an empty body is a success, since it holds
      no exception marker. */
  lemma EmptyResponses()
    ensures !ParseWfsResponse(None)
    ensures ParseWfsResponse(Some(""))
  {
    assert !Contains("", "<ows:Exception");
    assert !Contains("", "<ServiceException");
  }

  /** A body with an exception marker fails unless it also reports one
      update, loosely or strictly. */
  lemma ExceptionReportFails(body: string)
    requires Contains(body, "<ows:Exception") || Contains(body, "<ServiceException")
    requires !Contains(body, LooseTotalUpdatedOne)
    ensures !Contains(body, TotalUpdatedOne)
    ensures !ParseWfsResponse(Some(body))
  {
    ResponseVerdict(body);
  }

  /** A bare OWS exception report is a failure. */
  lemma OwsExceptionReportFails()
    ensures !ParseWfsResponse(Some("<ows:ExceptionReport/>"))
  {
    var body := "<ows:ExceptionReport/>";
    assert body[..14] == "<ows:Exception";
    MissingCharNotContainedIn(body, LooseTotalUpdatedOne, 'U');
    ExceptionReportFails(body);
  }

  lemma ZeroUpdatesHasNoMarker()
    ensures !Contains("<wfs:totalUpdated>0</wfs:totalUpdated>", "<ows:Exception")
    ensures !Contains("<wfs:totalUpdated>0</wfs:totalUpdated>", "<ServiceException")
  {
    var body := "<wfs:totalUpdated>0</wfs:totalUpdated>";
    assert 'x' !in body && 'S' !in body;
    MissingCharNotContainedIn(body, "<ows:Exception", 'x');
    MissingCharNotContainedIn(body, "<ServiceException", 'S');
  }

  /** Any body without an exception marker is a success, whatever update
      count it reports, none included. */
  lemma NoExceptionMarkerSucceeds(body: string)
    requires !Contains(body, "<ows:Exception") && !Contains(body, "<ServiceException")
    ensures ParseWfsResponse(Some(body))
  {
    ResponseVerdict(body);
  }

  /** A response that reports zero updated features, with no exception
      marker, still counts as a success. */
  lemma ZeroUpdatesCountAsSuccess()
    ensures ParseWfsResponse(Some("<wfs:totalUpdated>0</wfs:totalUpdated>"))
  {
    ZeroUpdatesHasNoMarker();
    NoExceptionMarkerSucceeds("<wfs:totalUpdated>0</wfs:totalUpdated>");
  }

  /** The outcome of the POST to the server: a body (possibly null) or an
      exception. */
  datatype Exchange = Responded(body: Option<string>) | Failed

  /** updateFeature: build the transaction, post it, judge the response;
      any exception on the way gives false. The server is a parameter. */
  predicate UpdateFeature(num: Numerics, layer: LayerCatalog, feature: Feature, post: string -> Exchange) {
    match WfsUpdateTransaction(num, layer, feature)
    case Err(_) => false
    case Ok(t) =>
      match post(t)
      case Failed => false
      case Responded(body) => ParseWfsResponse(body)
  }

  /** The update succeeds exactly when the transaction can be built, the
      exchange returns and its body is judged a success. */
  lemma UpdateFeatureOutcome(num: Numerics, layer: LayerCatalog, feature: Feature, post: string -> Exchange)
    ensures UpdateFeature(num, layer, feature, post) <==>
      GeometryGml(num, feature.geometry).Ok? &&
      post(WfsUpdateTransaction(num, layer, feature).value).Responded? &&
      ParseWfsResponse(post(WfsUpdateTransaction(num, layer, feature).value).body)
  {
  }
}
