/** The schema side of the adapter: turning the elements of a
    DescribeFeatureType document into a layer schema (a geometry type and an
    ordered list of attributes with their input types). */
module SchemaTranslator {
  import opened Wrappers
  import opened JavaStrings
  import opened MappingUtils

  /** One element selected by //xsd:sequence/xsd:element, with its name and
      type attributes (each "" when the attribute is absent). */
  datatype SchemaElement = SchemaElement(name: string, typeName: string)

  datatype Attribute = Attribute(caption: string, inputType: string)

  datatype LayerSchema = LayerSchema(geometryType: string, attributes: seq<Attribute>)

  /** Why parsing fails: an element name labelize cannot handle (an empty
      '_'-segment makes charAt(0) throw), or no geometry element at all. */
  datatype SchemaError = InvalidFieldName(name: string) | NoGeometryType

  /** An element whose type names a GML type is the geometry field. */
  predicate IsGeometryElement(e: SchemaElement) {
    Contains(e.typeName, "gml:")
  }

  /** isIgnoredField: internal identifiers, in any ASCII case. */
  predicate IsIgnoredField(fieldName: string) {
    Lower(fieldName) in {"fid", "id", "gid"}
  }

  /** The first character upper-cased, the rest kept. */
  function Capitalize(part: string): (r: string)
    requires |part| > 0
    ensures |r| == |part| && r[0] == UpperChar(part[0]) && r[1..] == part[1..]
  {
    [UpperChar(part[0])] + part[1..]
  }

  function CapitalizeAll(parts: seq<string>): (r: seq<string>)
    requires "" !in parts
    ensures |r| == |parts|
    ensures forall k :: 0 <= k < |parts| ==> r[k] == Capitalize(parts[k])
  {
    seq(|parts|, k requires 0 <= k < |parts| => Capitalize(parts[k]))
  }

  /** labelize: the '_'-segments of the name (as String.split gives them)
      capitalised and joined by single spaces. None where Java throws: some
      remaining segment is empty, so charAt(0) fails. */
  function Labelize(fieldName: string): (caption: Option<string>)
    ensures caption.None? <==> "" in Split(fieldName, '_')
  {
    var parts := Split(fieldName, '_');
    if "" in parts then None else Some(Join(CapitalizeAll(parts), " "))
  }

  /** A field name every one of whose '_'-segments is non-empty. */
  predicate SegmentsNonEmpty(fieldName: string) {
    "" !in RawSplit(fieldName, '_')
  }

  /** The attribute an element contributes, or the error its name raises. */
  function AttributeOf(e: SchemaElement): Result<Attribute, SchemaError> {
    match Labelize(e.name)
    case None => Err(InvalidFieldName(e.name))
    case Some(caption) => Ok(Attribute(caption, MapXsdTypeToInputType(e.typeName)))
  }

  /** An element that becomes an attribute: not the geometry, not ignored. */
  predicate IsAttributeElement(e: SchemaElement) {
    !IsGeometryElement(e) && !IsIgnoredField(e.name)
  }

  /** What the loop has collected after the elements els: the attributes, or
      the error of the first attribute element whose name cannot be
      labelled. */
  function CollectAttributes(els: seq<SchemaElement>): Result<seq<Attribute>, SchemaError>
    decreases |els|
  {
    if els == [] then Ok([])
    else
      match CollectAttributes(els[..|els| - 1])
      case Err(err) => Err(err)
      case Ok(attrs) =>
        var e := els[|els| - 1];
        if !IsAttributeElement(e) then Ok(attrs)
        else
          match AttributeOf(e)
          case Err(err) => Err(err)
          case Ok(a) => Ok(attrs + [a])
  }

  /** The drawing type of a geometry element: its type with every "gml:"
      removed, looked up in the geometry table. */
  function GeometryTypeOf(e: SchemaElement): string {
    MapGeometryTypeToDrawType(Replace(e.typeName, "gml:", ""))
  }

  /** The geometry type the loop ends with, None while no geometry element
      has been seen. */
  function LastGeometryType(els: seq<SchemaElement>): Option<string>
    decreases |els|
  {
    if els == [] then None
    else if IsGeometryElement(els[|els| - 1]) then Some(GeometryTypeOf(els[|els| - 1]))
    else LastGeometryType(els[..|els| - 1])
  }

  /** parseDescribeFeatureType after the XPath selection. */
  function TranslateSchema(els: seq<SchemaElement>): Result<LayerSchema, SchemaError> {
    match CollectAttributes(els)
    case Err(err) => Err(err)
    case Ok(attrs) =>
      match LastGeometryType(els)
      case None => Err(NoGeometryType)
      case Some(g) => Ok(LayerSchema(g, attrs))
  }

  /** Once the collection has failed on a prefix, it fails with the same
      error on the whole sequence. */
  lemma {:induction false} CollectErrorPersists(els: seq<SchemaElement>, i: nat)
    requires i <= |els| && CollectAttributes(els[..i]).Err?
    ensures CollectAttributes(els) == CollectAttributes(els[..i])
    decreases |els| - i
  {
    if i < |els| {
      assert els[..i + 1][..i] == els[..i];
      CollectErrorPersists(els, i + 1);
    } else {
      assert els[..i] == els;
    }
  }

  /** The loop of parseDescribeFeatureType over the selected elements: it
      keeps the last geometry type seen and appends one attribute per
      attribute element. */
  method ParseDescribeFeatureType(elements: seq<SchemaElement>)
    returns (r: Result<LayerSchema, SchemaError>)
    ensures r == TranslateSchema(elements)
  {
    var geometryType: Option<string> := None;
    var attributes: seq<Attribute> := [];
    var i := 0;
    while i < |elements|
      invariant 0 <= i <= |elements|
      invariant geometryType == LastGeometryType(elements[..i])
      invariant CollectAttributes(elements[..i]) == Ok(attributes)
    {
      var el := elements[i];
      assert elements[..i + 1][..i] == elements[..i];
      if Contains(el.typeName, "gml:") {
        var extracted := Replace(el.typeName, "gml:", "");
        geometryType := Some(MapGeometryTypeToDrawType(extracted));
      } else if !IsIgnoredField(el.name) {
        var caption := Labelize(el.name);
        if caption.None? {
          CollectErrorPersists(elements, i + 1);
          return Err(InvalidFieldName(el.name));
        }
        attributes := attributes + [Attribute(caption.value, MapXsdTypeToInputType(el.typeName))];
      }
      i := i + 1;
    }
    assert elements[..i] == elements;
    if geometryType.None? {
      return Err(NoGeometryType);
    }
    return Ok(LayerSchema(geometryType.value, attributes));
  }

  /** The elements that become attributes, in document order: each
      attribute element as often as it occurs, every other element never. */
  function AttributeElements(els: seq<SchemaElement>): (r: seq<SchemaElement>)
    ensures |r| <= |els|
    ensures forall e :: multiset(r)[e] == if IsAttributeElement(e) then multiset(els)[e] else 0
    decreases |els|
  {
    if els == [] then []
    else
      var front, last := els[..|els| - 1], els[|els| - 1];
      assert els == front + [last];
      AttributeElements(front) + (if IsAttributeElement(last) then [last] else [])
  }

  /** The attribute elements of a sequence with one more element. */
  lemma AttributeElementsSnoc(els: seq<SchemaElement>)
    requires els != []
    ensures var front, last := els[..|els| - 1], els[|els| - 1];
      AttributeElements(els) ==
        AttributeElements(front) + (if IsAttributeElement(last) then [last] else [])
  {
  }

  /** Collection succeeds iff every attribute element can be labelled. */
  lemma {:induction false} CollectSucceeds(els: seq<SchemaElement>)
    ensures CollectAttributes(els).Ok? <==>
      forall e :: e in AttributeElements(els) ==> AttributeOf(e).Ok?
    decreases |els|
  {
    if els != [] {
      var front, last := els[..|els| - 1], els[|els| - 1];
      CollectSucceeds(front);
      AttributeElementsSnoc(els);
      var aeFront := AttributeElements(front);
      var ae := AttributeElements(els);
      if CollectAttributes(front).Err? {
        var bad :| bad in aeFront && AttributeOf(bad).Err?;
        assert bad in ae;
      } else if IsAttributeElement(last) {
        assert last in ae;
        assert forall e :: e in ae ==> e in aeFront || e == last;
      }
    }
  }

  /** A successful collection holds one attribute per attribute element. */
  lemma {:induction false} CollectValues(els: seq<SchemaElement>)
    requires CollectAttributes(els).Ok?
    ensures var attrs, ae := CollectAttributes(els).value, AttributeElements(els);
      |attrs| == |ae| && forall k :: 0 <= k < |ae| ==> AttributeOf(ae[k]) == Ok(attrs[k])
    decreases |els|
  {
    if els != [] {
      var front, last := els[..|els| - 1], els[|els| - 1];
      CollectValues(front);
      AttributeElementsSnoc(els);
    }
  }

  /** Parsing keeps exactly the attribute elements: it succeeds on them iff
      every one of their names can be labelled, and then yields one
      attribute per attribute element, in order, with that element's label
      and input type. */
  lemma CollectedAttributes(els: seq<SchemaElement>)
    ensures CollectAttributes(els).Ok? <==>
      forall e :: e in AttributeElements(els) ==> AttributeOf(e).Ok?
    ensures CollectAttributes(els).Ok? ==>
      var attrs, ae := CollectAttributes(els).value, AttributeElements(els);
      |attrs| == |ae| && forall k :: 0 <= k < |ae| ==> attrs[k] == AttributeOf(ae[k]).value
  {
    CollectSucceeds(els);
    if CollectAttributes(els).Ok? {
      CollectValues(els);
    }
  }

  /** The geometry type is None exactly when no element is a geometry
      element. */
  lemma {:induction false} NoGeometryTypeWithoutGmlElement(els: seq<SchemaElement>)
    ensures LastGeometryType(els).None? <==>
      forall i :: 0 <= i < |els| ==> !IsGeometryElement(els[i])
    decreases |els|
  {
    if els != [] {
      var front := els[..|els| - 1];
      NoGeometryTypeWithoutGmlElement(front);
      assert forall i :: 0 <= i < |front| ==> front[i] == els[i];
    }
  }

  /** The geometry type is the drawing type of the last geometry element. */
  lemma {:induction false} GeometryTypeOfLastGmlElement(els: seq<SchemaElement>, i: nat)
    requires i < |els| && IsGeometryElement(els[i])
    requires forall j :: i < j < |els| ==> !IsGeometryElement(els[j])
    ensures LastGeometryType(els) == Some(GeometryTypeOf(els[i]))
    decreases |els|
  {
    if i < |els| - 1 {
      var front := els[..|els| - 1];
      assert !IsGeometryElement(els[|els| - 1]);
      assert front[i] == els[i];
      forall j | i < j < |front| ensures !IsGeometryElement(front[j]) {
        assert front[j] == els[j];
      }
      GeometryTypeOfLastGmlElement(front, i);
    }
  }

  /** Parsing fails exactly when an attribute name cannot be labelled or no
      element is a geometry element; a geometry type the table does not
      know ("Unknown") still counts as found. */
  lemma SchemaOutcome(els: seq<SchemaElement>)
    ensures TranslateSchema(els).Ok? <==>
      (forall e :: e in AttributeElements(els) ==> AttributeOf(e).Ok?) &&
      !(forall i :: 0 <= i < |els| ==> !IsGeometryElement(els[i]))
    ensures TranslateSchema(els) == Err(NoGeometryType) <==>
      (forall e :: e in AttributeElements(els) ==> AttributeOf(e).Ok?) &&
      (forall i :: 0 <= i < |els| ==> !IsGeometryElement(els[i]))
  {
    CollectedAttributes(els);
    NoGeometryTypeWithoutGmlElement(els);
    match CollectAttributes(els)
    case Err(err) =>
      assert err.InvalidFieldName? by {
        CollectErrorIsFieldName(els);
      }
    case Ok(_) =>
  }

  /** The collection only ever fails on a field name. */
  lemma {:induction false} CollectErrorIsFieldName(els: seq<SchemaElement>)
    ensures CollectAttributes(els).Err? ==> CollectAttributes(els).error.InvalidFieldName?
    decreases |els|
  {
    if els != [] {
      CollectErrorIsFieldName(els[..|els| - 1]);
    }
  }

  /** With no empty '_'-segment, the label is the capitalised segments joined
      by single spaces. */
  lemma LabelizeSegments(fieldName: string)
    requires SegmentsNonEmpty(fieldName)
    ensures Labelize(fieldName) == Some(Join(CapitalizeAll(RawSplit(fieldName, '_')), " "))
  {
    SplitKeepsNonEmptySegments(fieldName, '_');
  }

  /** For a name without spaces and without empty '_'-segments, splitting the
      label on spaces gives back the name's segments, capitalised, and the
      label has as many spaces as the name has underscores. */
  lemma LabelizeWords(fieldName: string)
    requires SegmentsNonEmpty(fieldName) && ' ' !in fieldName
    ensures Labelize(fieldName).Some?
    ensures RawSplit(Labelize(fieldName).value, ' ') == CapitalizeAll(RawSplit(fieldName, '_'))
    ensures multiset(Labelize(fieldName).value)[' '] == multiset(fieldName)['_']
  {
    LabelizeSegments(fieldName);
    var parts := RawSplit(fieldName, '_');
    var caps := CapitalizeAll(parts);
    RawSplitSegments(fieldName, '_');
    forall k | 0 <= k < |caps| ensures ' ' !in caps[k] {
      forall x | x in parts[k] ensures x != ' ' {
        assert x in fieldName;
      }
      assert caps[k] == [UpperChar(parts[k][0])] + parts[k][1..];
      assert parts[k][0] in parts[k];
    }
    RawSplitOfJoin(caps, ' ');
    RawSplitSegments(Join(caps, " "), ' ');
  }

  /** "FID", "Id" and "gId" are skipped like "fid"; "fid_1", "uid" and ""
      are not. */
  lemma IgnoredFieldExamples()
    ensures IsIgnoredField("fid") && IsIgnoredField("FID") && IsIgnoredField("Id")
    ensures IsIgnoredField("gId")
    ensures !IsIgnoredField("fid_1") && !IsIgnoredField("uid") && !IsIgnoredField("")
  {
    var l := Lower("fid");
    assert |l| == 3 && l[0] == 'f' && l[1] == 'i' && l[2] == 'd';
    assert l == "fid";
    l := Lower("FID");
    assert |l| == 3 && l[0] == 'f' && l[1] == 'i' && l[2] == 'd';
    assert l == "fid";
    l := Lower("Id");
    assert |l| == 2 && l[0] == 'i' && l[1] == 'd';
    assert l == "id";
    l := Lower("gId");
    assert |l| == 3 && l[0] == 'g' && l[1] == 'i' && l[2] == 'd';
    assert l == "gid";
    assert |Lower("fid_1")| == 5;
    l := Lower("uid");
    assert l[0] == 'u';
  }

  /** Whether a field is ignored does not depend on the case of its name:
      the lower-cased name is ignored exactly when the name is. */
  lemma IgnoredFieldCaseInsensitive(fieldName: string)
    ensures IsIgnoredField(Lower(fieldName)) == IsIgnoredField(fieldName)
  {
    LowerIdempotent(fieldName);
  }

  lemma CapitalizeStreetName()
    ensures CapitalizeAll(["street", "name"]) == ["Street", "Name"]
  {
    var c := CapitalizeAll(["street", "name"]);
    assert |c| == 2;
    assert c[0] == "Street" by {
      var x := Capitalize("street");
      assert x[0] == 'S' && x[1..] == "treet";
    }
    assert c[1] == "Name" by {
      var x := Capitalize("name");
      assert x[0] == 'N' && x[1..] == "ame";
    }
  }

  /** "street_name" becomes "Street Name". */
  lemma LabelizeStreetName()
    ensures Labelize("street_name") == Some("Street Name")
  {
    SplitTwoWords("street", "name", '_');
    assert "street" + ['_'] + "name" == "street_name";
    CapitalizeStreetName();
    assert Join(["Street", "Name"], " ") == "Street Name";
  }

  lemma SplitTrailingSeparator()
    ensures Split("a_", '_') == ["a"]
  {
    SplitOneTrailingSeparator("a", '_');
    assert "a" + ['_'] == "a_";
  }

  lemma SplitLoneSeparator()
    ensures Split("_", '_') == []
  {
    RawSplitAfterSeparator("", "", '_');
    assert "" + ['_'] + "" == "_";
    RawSplitNoSeparator("", '_');
    assert RawSplit("_", '_') == ["", ""];
    assert DropTrailingEmpty(["", ""]) == [];
  }

  lemma SplitLeadingSeparator()
    ensures Split("_a", '_') == ["", "a"]
  {
    RawSplitAfterSeparator("", "a", '_');
    assert "" + ['_'] + "a" == "_a";
    RawSplitNoSeparator("", '_');
    assert RawSplit("_a", '_') == ["", "a"];
  }

  /** Java's split keeps a leading empty segment and drops trailing ones: ""
      and "_a" cannot be labelled, "_" gives "" and "a_" gives "A". */
  lemma LabelizeEdgeCases()
    ensures Labelize("") == None
    ensures Labelize("_") == Some("")
    ensures Labelize("a_") == Some("A")
    ensures Labelize("_a") == None
  {
    LabelizeRefused();
    LabelizeLoneSeparator();
    LabelizeTrailingSeparator();
  }

  lemma LabelizeRefused()
    ensures Labelize("") == None && Labelize("_a") == None
  {
    SplitLeadingSeparator();
  }

  lemma LabelizeLoneSeparator()
    ensures Labelize("_") == Some("")
  {
    SplitLoneSeparator();
  }

  lemma LabelizeTrailingSeparator()
    ensures Labelize("a_") == Some("A")
  {
    SplitTrailingSeparator();
    var c := CapitalizeAll(["a"]);
    assert |c| == 1;
    assert c[0] == "A" by {
      var x := Capitalize("a");
      assert x[0] == 'A' && x[1..] == "";
    }
    assert c == ["A"];
  }

  lemma BarePointType()
    ensures !Contains("PointPropertyType", "gml:")
  {
    MissingCharNotContainedIn("PointPropertyType", "gml:", 'g');
  }

  lemma GmlPrefixStripped()
    ensures Replace("gml:PointPropertyType", "gml:", "") == "PointPropertyType"
  {
    assert "gml:" + "PointPropertyType" == "gml:PointPropertyType";
    BarePointType();
    ReplaceLeadingOnly("gml:", "PointPropertyType", "");
  }

  /** An element typed gml:PointPropertyType is the geometry, of type "Point". */
  lemma PointGeometryElement(name: string)
    ensures IsGeometryElement(SchemaElement(name, "gml:PointPropertyType"))
    ensures GeometryTypeOf(SchemaElement(name, "gml:PointPropertyType")) == "Point"
  {
    assert "gml:PointPropertyType"[..4] == "gml:";
    GmlPrefixStripped();
    assert MapGeometryTypeToDrawType("PointPropertyType") == "Point";
  }

  lemma StringElementNotGeometry(name: string)
    ensures !IsGeometryElement(SchemaElement(name, "xsd:string"))
  {
    MissingCharNotContainedIn("xsd:string", "gml:", 'm');
  }

  /** A name without '_' is one capitalised word. */
  lemma LabelizeOneWord(w: string)
    requires w != [] && '_' !in w
    ensures Labelize(w) == Some(Capitalize(w))
  {
    var c := CapitalizeAll([w]);
    assert c == [Capitalize(w)];
  }

  lemma CapitalizeDescription()
    ensures Capitalize("description") == "Description"
  {
    var x := Capitalize("description");
    assert x[0] == 'D' && x[1..] == "escription";
  }

  lemma LabelizeDescription()
    ensures Labelize("description") == Some("Description")
  {
    assert '_' !in "description";
    LabelizeOneWord("description");
    CapitalizeDescription();
  }

  lemma DescriptionNotIgnored()
    ensures !IsIgnoredField("description")
  {
    assert |Lower("description")| == 11;
  }

  lemma StringIsText()
    ensures MapXsdTypeToInputType("xsd:string") == "text"
  {
  }

  /** A "description" field typed xsd:string is a plain text attribute: the
      long-text keywords are looked for in the type name, not the field
      name. */
  lemma DescriptionIsText()
    ensures IsAttributeElement(SchemaElement("description", "xsd:string"))
    ensures AttributeOf(SchemaElement("description", "xsd:string")) == Ok(Attribute("Description", "text"))
  {
    DescriptionNotIgnored();
    StringElementNotGeometry("description");
    LabelizeDescription();
    StringIsText();
  }

  /** A skipped element, the geometry and one attribute element, in that
      order. */
  lemma SkippedGeometryAttribute(e0: SchemaElement, e1: SchemaElement, e2: SchemaElement, a: Attribute)
    requires !IsAttributeElement(e0) && !IsGeometryElement(e0)
    requires IsGeometryElement(e1)
    requires IsAttributeElement(e2) && AttributeOf(e2) == Ok(a)
    ensures TranslateSchema([e0, e1, e2]) == Ok(LayerSchema(GeometryTypeOf(e1), [a]))
  {
    var els := [e0, e1, e2];
    assert els[..2] == [e0, e1] && [e0, e1][..1] == [e0] && [e0][..0] == [];
    assert CollectAttributes([e0]) == Ok([]) by {
      assert CollectAttributes([e0][..0]) == Ok([]);
    }
    assert CollectAttributes([e0, e1]) == Ok([]);
    assert CollectAttributes(els) == Ok([] + [a]);
    assert LastGeometryType(els) == Some(GeometryTypeOf(e1));
    assert [] + [a] == [a];
  }

  /** A point layer with an identifier and a description: the identifier is
      skipped and the one attribute is "Description", a text input. */
  lemma PointLayerWithDescription()
    ensures TranslateSchema([
        SchemaElement("fid", "xsd:string"),
        SchemaElement("the_geom", "gml:PointPropertyType"),
        SchemaElement("description", "xsd:string")])
      == Ok(LayerSchema("Point", [Attribute("Description", "text")]))
  {
    IgnoredFieldExamples();
    StringElementNotGeometry("fid");
    PointGeometryElement("the_geom");
    DescriptionIsText();
    SkippedGeometryAttribute(SchemaElement("fid", "xsd:string"),
      SchemaElement("the_geom", "gml:PointPropertyType"),
      SchemaElement("description", "xsd:string"), Attribute("Description", "text"));
  }
}
