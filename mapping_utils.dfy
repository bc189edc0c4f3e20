/** The two type tables of the drawing module: GML geometry property types to
    drawing types, and XML Schema type names to HTML input types. */
module MappingUtils {
  import opened JavaStrings

  /** The geometry property types the drawing client knows. */
  const KnownGeometryTypes: set<string> := {
    "PointPropertyType", "LineStringPropertyType", "MultiLineStringPropertyType",
    "PolygonPropertyType", "MultiPolygonPropertyType"
  }

  /** mapGeometryTypeToDrawType: a known geometry property type maps to its
      name without the "PropertyType" suffix, every other string to
      "Unknown" (the comparison is case-sensitive). */
  function MapGeometryTypeToDrawType(gmlType: string): (drawType: string)
    ensures gmlType in KnownGeometryTypes <==> drawType != "Unknown"
    ensures gmlType in KnownGeometryTypes ==> gmlType == drawType + "PropertyType"
    ensures gmlType !in KnownGeometryTypes ==> drawType == "Unknown"
  {
    match gmlType
    case "PointPropertyType" => "Point"
    case "LineStringPropertyType" => "LineString"
    case "MultiLineStringPropertyType" => "MultiLineString"
    case "PolygonPropertyType" => "Polygon"
    case "MultiPolygonPropertyType" => "MultiPolygon"
    case _ => "Unknown"
  }

  /** The HTML input types a schema attribute can be given. */
  const InputTypes: set<string> := {
    "text", "url", "number", "boolean", "date", "datetime-local", "time",
    "select", "textarea", "email"
  }

  /** The integer, decimal, floating-point, unsigned and sign-constrained XML
      Schema types, all rendered as a number input. */
  const NumericXsdTypes: set<string> := {
    "xsd:int", "xsd:integer", "xsd:long", "xsd:short", "xsd:byte",
    "xsd:double", "xsd:float", "xsd:decimal",
    "xsd:unsignedInt", "xsd:unsignedLong", "xsd:unsignedShort", "xsd:unsignedByte",
    "xsd:positiveInteger", "xsd:negativeInteger", "xsd:nonPositiveInteger",
    "xsd:nonNegativeInteger"
  }

  /** Every type name the exact-match table of mapXSDTypeToInputType lists. */
  const ExactXsdTypes: set<string> := NumericXsdTypes + {
    "xsd:string", "xsd:anyURI", "xsd:boolean", "xsd:date", "xsd:dateTime",
    "xsd:time", "xsd:select"
  }

  /** The keyword tests of the fallback run on the lower-cased type name. */
  predicate HasLongTextKeyword(xsdType: string) {
    var lower := Lower(xsdType);
    Contains(lower, "description") || Contains(lower, "comment") || Contains(lower, "note")
  }

  predicate HasMailKeyword(xsdType: string) {
    var lower := Lower(xsdType);
    Contains(lower, "email") || Contains(lower, "mail")
  }

  /** The default branch of mapXSDTypeToInputType: long-text keywords first,
      then mail keywords, then plain text. */
  function FallbackInputType(xsdType: string): (inputType: string)
    ensures inputType in {"textarea", "email", "text"}
  {
    if HasLongTextKeyword(xsdType) then "textarea"
    else if HasMailKeyword(xsdType) then "email"
    else "text"
  }

  /** mapXSDTypeToInputType: an exact, case-sensitive table of XML Schema
      type names, and a keyword fallback for every name it misses. The
      result is always one of the ten input types. */
  function MapXsdTypeToInputType(xsdType: string): (inputType: string)
    ensures inputType in InputTypes
  {
    match xsdType
    case "xsd:string" => "text"
    case "xsd:anyURI" => "url"
    case "xsd:int" | "xsd:integer" | "xsd:long" | "xsd:short" | "xsd:byte" => "number"
    case "xsd:double" | "xsd:float" | "xsd:decimal" => "number"
    case "xsd:unsignedInt" | "xsd:unsignedLong" | "xsd:unsignedShort" | "xsd:unsignedByte" => "number"
    case "xsd:positiveInteger" | "xsd:negativeInteger" | "xsd:nonPositiveInteger"
      | "xsd:nonNegativeInteger" => "number"
    case "xsd:boolean" => "boolean"
    case "xsd:date" => "date"
    case "xsd:dateTime" => "datetime-local"
    case "xsd:time" => "time"
    case "xsd:select" => "select"
    case _ => FallbackInputType(xsdType)
  }

  /** The sixteen numeric type names, and only they, give "number". */
  lemma NumericTypesGiveNumber(xsdType: string)
    ensures MapXsdTypeToInputType(xsdType) == "number" <==> xsdType in NumericXsdTypes
  {
  }

  lemma NumericTypeCount()
    ensures |NumericXsdTypes| == 16
  {
  }

  /** A name of the exact table is decided by the table alone: it gets one of
      the eight table values and never a keyword-derived one. Every other
      name goes to the fallback. */
  lemma ExactTableFirst(xsdType: string)
    ensures xsdType in ExactXsdTypes ==>
      MapXsdTypeToInputType(xsdType) in InputTypes - {"textarea", "email"}
    ensures xsdType !in ExactXsdTypes ==>
      MapXsdTypeToInputType(xsdType) == FallbackInputType(xsdType)
  {
  }

  /** "textarea" exactly when the table misses and a long-text keyword occurs
      in the lower-cased name, whatever mail keyword occurs too. */
  lemma TextareaExactly(xsdType: string)
    ensures MapXsdTypeToInputType(xsdType) == "textarea" <==>
      xsdType !in ExactXsdTypes && HasLongTextKeyword(xsdType)
  {
  }

  /** "email" exactly when the table misses, no long-text keyword occurs and
      "mail" occurs; the separate test for "email" never decides anything,
      since "email" contains "mail". */
  lemma EmailExactly(xsdType: string)
    ensures MapXsdTypeToInputType(xsdType) == "email" <==>
      xsdType !in ExactXsdTypes && !HasLongTextKeyword(xsdType) && Contains(Lower(xsdType), "mail")
  {
    var lower := Lower(xsdType);
    if Contains(lower, "email") {
      assert Contains("email", "mail") by { ContainsAt("email", "mail", 1); }
      ContainsTransitive(lower, "email", "mail");
    }
  }

  /** "text" for "xsd:string" and for names the table misses that carry no
      keyword at all. */
  lemma TextExactly(xsdType: string)
    ensures MapXsdTypeToInputType(xsdType) == "text" <==>
      xsdType == "xsd:string" ||
      (xsdType !in ExactXsdTypes && !HasLongTextKeyword(xsdType) && !HasMailKeyword(xsdType))
  {
  }

  /** Every keyword holds one of 'c', 'o', 'e' and 'm', so a name whose
      lower-cased form has none of them carries no keyword. */
  lemma NoKeywordWithout(xsdType: string)
    requires var lower := Lower(xsdType);
      'c' !in lower && 'o' !in lower && 'e' !in lower && 'm' !in lower
    ensures !HasLongTextKeyword(xsdType) && !HasMailKeyword(xsdType)
  {
    var lower := Lower(xsdType);
    MissingCharNotContainedIn(lower, "description", 'c');
    MissingCharNotContainedIn(lower, "comment", 'c');
    MissingCharNotContainedIn(lower, "note", 'o');
    MissingCharNotContainedIn(lower, "email", 'e');
    MissingCharNotContainedIn(lower, "mail", 'm');
  }

  /** Lower-cased, neither "xsd:String" nor "xsd:Int" carries a keyword,
      so both fall back to "text". */
  lemma CapitalisedKeywordFree(xsdType: string)
    requires xsdType == "xsd:String" || xsdType == "xsd:Int"
    ensures FallbackInputType(xsdType) == "text"
  {
    if xsdType == "xsd:String" {
      assert Lower(xsdType) == "xsd:string";
    } else {
      assert Lower(xsdType) == "xsd:int";
    }
    NoKeywordWithout(xsdType);
  }

  /** Matching is case-sensitive: "xsd:String" misses the table (which has
      "xsd:string") and falls back to "text"; "xsd:Int" misses it too and
      gives "text", not "number". */
  lemma CaseSensitiveMatching()
    ensures MapXsdTypeToInputType("xsd:String") == "text"
    ensures MapXsdTypeToInputType("xsd:Int") == "text"
  {
    assert "xsd:String" !in ExactXsdTypes && "xsd:Int" !in ExactXsdTypes;
    CapitalisedKeywordFree("xsd:String");
    CapitalisedKeywordFree("xsd:Int");
    ExactTableFirst("xsd:String");
    ExactTableFirst("xsd:Int");
  }

  /** Any type name outside the table that carries both kinds of keyword
      gives "textarea": the long-text test comes first. */
  lemma LongTextBeforeMail(xsdType: string)
    requires xsdType !in ExactXsdTypes
    requires HasLongTextKeyword(xsdType) && HasMailKeyword(xsdType)
    ensures MapXsdTypeToInputType(xsdType) == "textarea"
  {
    TextareaExactly(xsdType);
  }

  /** Lower-cased, "xsd:noteEmail" holds "note" and "mail". */
  lemma NoteEmailKeywords()
    ensures HasLongTextKeyword("xsd:noteEmail") && HasMailKeyword("xsd:noteEmail")
  {
    var lower := Lower("xsd:noteEmail");
    assert lower == "xsd:noteemail";
    ContainsAt(lower, "note", 4);
    ContainsAt(lower, "mail", 9);
  }

  /** "xsd:noteEmail" carries both kinds of keyword and gives "textarea". */
  lemma NoteEmailIsTextarea()
    ensures MapXsdTypeToInputType("xsd:noteEmail") == "textarea"
  {
    NoteEmailKeywords();
    assert |"xsd:noteEmail"| == 13;
    assert "xsd:noteEmail" !in ExactXsdTypes;
    LongTextBeforeMail("xsd:noteEmail");
  }
}
