# Drawing module: GeoServer protocol codec

The drawing module edits features of layers served by GeoServer. Its adapter
speaks two operations of OGC Web Feature Service 1.1.0 (OGC 04-094):
DescribeFeatureType (a layer's XML Schema becomes a form description) and the
Update element of Transaction (clause 12), whose response it judges. Geometry
goes out as GML 3.1.1 Point, LineString and Polygon fragments. Property values
are escaped with the five predefined entities of section 4.6 of XML 1.0.

This project models the pure logic of that adapter once the network calls and
the DOM/XPath parse are removed:

- `MappingUtils` (`mapping_utils.dfy`): the two type tables. GML geometry
  property types map to drawing types. XML Schema type names map to HTML input
  types through an exact, case-sensitive table and an ordered keyword fallback.
- `SchemaTranslator` (`schema_translator.dfy`): the loop of
  `parseDescribeFeatureType` over the `xsd:element` nodes. It keeps the last
  geometry type and collects one labelled attribute per remaining field. It
  also models `isIgnoredField` and `labelize`, with Java's `String.split`
  semantics. The loop is a method proved equal to a specification function.
- `GeometryEncoder` (`geometry_encoder.dfy`):
  - coordinate extraction over the runtime shapes `Object[]`, `List`, JSON-like
    `String`, `double[]` and `float[]`, with its array-filling loops as methods;
  - forcing to 2D;
  - the Point, LineString and Polygon writers. Their StringBuilder loops are
    methods, and they keep the source's separator rule: a space before every
    point whose index is above zero, even when no earlier point was written.
  - dispatch on the lower-cased geometry type.
- `TransactionBuilder` (`transaction_builder.dfy`):
  - the emptiness test for property values and `escapeXml`;
  - the property stream: filter, format, join by newline;
  - the Transaction text block and `parseWfsResponse`;
  - `updateFeature`, with the HTTP exchange as a parameter.
- `JavaStrings` (`java_strings.dfy`): the `java.lang.String` operations these
  rely on: `contains`, `replace`, `split`, `trim`, `toLowerCase`,
  `equalsIgnoreCase` and `Collectors.joining`.
- `Wrappers` (`wrappers.dfy`): `Option` and `Result`.

Java exceptions are modelled as `Err` values. Almost every error is a
`GeometryError` (the geometry writers) or a `SchemaError` (the schema loop).
The one for an empty `_`-segment in `labelize` is `None`, which the schema
loop turns into a `SchemaError`.

`Double.parseDouble` and `String.format(Locale.US, "%.6f")` enter as the two
fields of a `Numerics` value: `parse: string -> Option<real>` and
`fmt6: real -> string`. Every property holds for all such functions.

Where a reader might expect something else, the model does what the code does:

- the textarea and email heuristic looks at the type name, not the field
  name, so a field `description` typed `xsd:string` gets `"text"`;
- an empty, non-null response body counts as a success, and so does a
  response that reports zero updated features and carries no exception marker;
- the numeric table lists sixteen XML Schema names (five integer, three
  decimal or floating, four unsigned and four sign-constrained);
- a `java.util.List` as a whole line string or polygon is refused
  (`instanceof Object[]` fails), although a `List` is accepted as a single
  point;
- a first line or ring point with fewer than two numbers leaves a leading
  space in the position list.

## Model

| member | source | states |
|---|---|---|
| MappingUtils.MapGeometryTypeToDrawType | src/main/java/com/amine/pfe/drawing_module/domain/util/MappingUtils.java:5-14 | exactly the five known property types give something other than "Unknown"; each gives its own name without the "PropertyType" suffix; every other string gives "Unknown" |
| MappingUtils.MapXsdTypeToInputType | src/main/java/com/amine/pfe/drawing_module/domain/util/MappingUtils.java:16-59 | total, and the result is always one of the ten input types |
| MappingUtils.FallbackInputType | src/main/java/com/amine/pfe/drawing_module/domain/util/MappingUtils.java:41-57 | the keyword fallback yields only "textarea", "email" or "text" |
| MappingUtils.NumericTypesGiveNumber | src/main/java/com/amine/pfe/drawing_module/domain/util/MappingUtils.java:22-27 | the result is "number" if and only if the name is one of the listed numeric types |
| MappingUtils.NumericTypeCount | src/main/java/com/amine/pfe/drawing_module/domain/util/MappingUtils.java:23-27 | the numeric table has sixteen names |
| MappingUtils.ExactTableFirst | src/main/java/com/amine/pfe/drawing_module/domain/util/MappingUtils.java:17-41 | a name of the exact table never reaches the fallback (never "textarea" or "email"); any other name gets exactly the fallback's answer |
| MappingUtils.TextareaExactly | src/main/java/com/amine/pfe/drawing_module/domain/util/MappingUtils.java:43-47 | "textarea" if and only if the table misses and the lower-cased name contains description, comment or note |
| MappingUtils.EmailExactly | src/main/java/com/amine/pfe/drawing_module/domain/util/MappingUtils.java:48-52 | "email" if and only if the table misses, no long-text keyword occurs, and "mail" occurs (the "email" test is subsumed) |
| MappingUtils.TextExactly | src/main/java/com/amine/pfe/drawing_module/domain/util/MappingUtils.java:17-56 | "text" if and only if the name is "xsd:string", or the table misses and no keyword occurs |
| MappingUtils.NoKeywordWithout | src/main/java/com/amine/pfe/drawing_module/domain/util/MappingUtils.java:43-51 | a lower-cased name without 'c', 'o', 'e' and 'm' carries no keyword |
| MappingUtils.CapitalisedKeywordFree | src/main/java/com/amine/pfe/drawing_module/domain/util/MappingUtils.java:41-56 | the fallback gives both "xsd:String" and "xsd:Int" the answer "text" |
| MappingUtils.CaseSensitiveMatching | src/main/java/com/amine/pfe/drawing_module/domain/util/MappingUtils.java:17-41 | matching is case-sensitive: "xsd:String" and "xsd:Int" miss the table and give "text" |
| MappingUtils.LongTextBeforeMail | src/main/java/com/amine/pfe/drawing_module/domain/util/MappingUtils.java:43-51 | any name outside the exact table that carries both a long-text and a mail keyword gives "textarea", never "email" |
| MappingUtils.NoteEmailIsTextarea | src/main/java/com/amine/pfe/drawing_module/domain/util/MappingUtils.java:43-51 | example: "xsd:noteEmail" gives "textarea" |
| MappingUtils.NoteEmailKeywords | src/main/java/com/amine/pfe/drawing_module/domain/util/MappingUtils.java:43-51 | example: "xsd:noteEmail" carries both a long-text and a mail keyword |
| SchemaTranslator.Capitalize | src/main/java/com/amine/pfe/drawing_module/infrastructure/service/GeoserverAdapter.java:171 | same length, first character upper-cased, the rest unchanged |
| SchemaTranslator.CapitalizeAll | src/main/java/com/amine/pfe/drawing_module/infrastructure/service/GeoserverAdapter.java:170-171 | one capitalised segment per segment, in order |
| SchemaTranslator.Labelize | src/main/java/com/amine/pfe/drawing_module/infrastructure/service/GeoserverAdapter.java:169-173 | fails (charAt(0) on an empty segment) exactly when the split yields an empty segment |
| SchemaTranslator.ParseDescribeFeatureType | src/main/java/com/amine/pfe/drawing_module/infrastructure/service/GeoserverAdapter.java:133-159 | the loop's result is the schema translation of the element list |
| SchemaTranslator.CollectErrorPersists | src/main/java/com/amine/pfe/drawing_module/infrastructure/service/GeoserverAdapter.java:136-153 | once a field name fails, later elements do not change the outcome |
| SchemaTranslator.AttributeElements | src/main/java/com/amine/pfe/drawing_module/infrastructure/service/GeoserverAdapter.java:141-148 | the elements that reach the attribute list: each non-gml, non-ignored element with its multiplicity, and no other |
| SchemaTranslator.CollectedAttributes | src/main/java/com/amine/pfe/drawing_module/infrastructure/service/GeoserverAdapter.java:136-153 | the attribute list is built if and only if every such element labelizes; then it holds exactly one attribute per such element, same count, in input order |
| SchemaTranslator.NoGeometryTypeWithoutGmlElement | src/main/java/com/amine/pfe/drawing_module/infrastructure/service/GeoserverAdapter.java:141-157 | no geometry type is found if and only if no element's type contains "gml:" |
| SchemaTranslator.GeometryTypeOfLastGmlElement | src/main/java/com/amine/pfe/drawing_module/infrastructure/service/GeoserverAdapter.java:141-145 | the geometry type is the mapping of the last gml element's type with "gml:" removed ("Unknown" still counts as found) |
| SchemaTranslator.SchemaOutcome | src/main/java/com/amine/pfe/drawing_module/infrastructure/service/GeoserverAdapter.java:136-159 | the translation succeeds if and only if every attribute element labelizes and some element is a gml element; the missing-geometry error occurs if and only if all labelize and none is |
| SchemaTranslator.CollectErrorIsFieldName | src/main/java/com/amine/pfe/drawing_module/infrastructure/service/GeoserverAdapter.java:150-152 | the only error of the attribute loop is an unlabelizable field name |
| SchemaTranslator.LabelizeSegments | src/main/java/com/amine/pfe/drawing_module/infrastructure/service/GeoserverAdapter.java:169-173 | for names without empty segments, the caption is the capitalised '_'-segments joined by single spaces |
| SchemaTranslator.LabelizeWords | src/main/java/com/amine/pfe/drawing_module/infrastructure/service/GeoserverAdapter.java:169-173 | for such names without spaces, splitting the caption at spaces gives back the capitalised segments, and the caption has as many spaces as the name has underscores |
| SchemaTranslator.IsIgnoredField | src/main/java/com/amine/pfe/drawing_module/infrastructure/service/GeoserverAdapter.java:165-167 | definition: the lower-cased name is "fid", "id" or "gid"; its properties are the next two rows |
| SchemaTranslator.IgnoredFieldCaseInsensitive | src/main/java/com/amine/pfe/drawing_module/infrastructure/service/GeoserverAdapter.java:165-167 | a name is ignored exactly when its lower-cased form is |
| SchemaTranslator.IgnoredFieldExamples | src/main/java/com/amine/pfe/drawing_module/infrastructure/service/GeoserverAdapter.java:165-167 | "fid", "FID", "Id" and "gId" are ignored; "fid_1", "uid" and "" are not |
| SchemaTranslator.TranslateSchema | src/main/java/com/amine/pfe/drawing_module/infrastructure/service/GeoserverAdapter.java:133-159 | definition of the loop's outcome: the attributes of the non-gml, non-ignored elements and the last gml element's type; proved about it in SchemaOutcome, CollectedAttributes and GeometryTypeOfLastGmlElement |
| SchemaTranslator.CapitalizeStreetName | src/main/java/com/amine/pfe/drawing_module/infrastructure/service/GeoserverAdapter.java:171 | ["street", "name"] capitalises to ["Street", "Name"] |
| SchemaTranslator.LabelizeStreetName | src/main/java/com/amine/pfe/drawing_module/infrastructure/service/GeoserverAdapter.java:169-173 | "street_name" becomes "Street Name" |
| SchemaTranslator.SplitTrailingSeparator | src/main/java/com/amine/pfe/drawing_module/infrastructure/service/GeoserverAdapter.java:170 | split drops the trailing empty segment of "a_" |
| SchemaTranslator.SplitLoneSeparator | src/main/java/com/amine/pfe/drawing_module/infrastructure/service/GeoserverAdapter.java:170 | "_" splits into no segment at all |
| SchemaTranslator.SplitLeadingSeparator | src/main/java/com/amine/pfe/drawing_module/infrastructure/service/GeoserverAdapter.java:170 | the leading empty segment of "_a" is kept |
| SchemaTranslator.LabelizeEdgeCases | src/main/java/com/amine/pfe/drawing_module/infrastructure/service/GeoserverAdapter.java:169-173 | "" and "_a" fail, "_" gives "", "a_" gives "A" |
| SchemaTranslator.GmlPrefixStripped | src/main/java/com/amine/pfe/drawing_module/infrastructure/service/GeoserverAdapter.java:142 | removing "gml:" from "gml:PointPropertyType" leaves "PointPropertyType" |
| JavaStrings.ReplaceLeadingOnly | src/main/java/com/amine/pfe/drawing_module/infrastructure/service/GeoserverAdapter.java:142 | a leading occurrence of the pattern that does not occur again is the only one replaced, so "gml:" is stripped from "gml:" + a bare type name |
| SchemaTranslator.PointGeometryElement | src/main/java/com/amine/pfe/drawing_module/infrastructure/service/GeoserverAdapter.java:141-143 | an element typed "gml:PointPropertyType" is a geometry element of type "Point" |
| SchemaTranslator.StringElementNotGeometry | src/main/java/com/amine/pfe/drawing_module/infrastructure/service/GeoserverAdapter.java:141 | an element typed "xsd:string" is not a geometry element |
| SchemaTranslator.LabelizeOneWord | src/main/java/com/amine/pfe/drawing_module/infrastructure/service/GeoserverAdapter.java:169-173 | a non-empty name without '_' becomes that name capitalised |
| SchemaTranslator.CapitalizeDescription | src/main/java/com/amine/pfe/drawing_module/infrastructure/service/GeoserverAdapter.java:171 | "description" capitalises to "Description" |
| SchemaTranslator.LabelizeDescription | src/main/java/com/amine/pfe/drawing_module/infrastructure/service/GeoserverAdapter.java:169-173 | "description" becomes "Description" |
| SchemaTranslator.DescriptionNotIgnored | src/main/java/com/amine/pfe/drawing_module/infrastructure/service/GeoserverAdapter.java:165-167 | "description" is not an ignored field |
| SchemaTranslator.StringIsText | src/main/java/com/amine/pfe/drawing_module/domain/util/MappingUtils.java:19 | "xsd:string" gives "text" |
| SchemaTranslator.DescriptionIsText | src/main/java/com/amine/pfe/drawing_module/infrastructure/service/GeoserverAdapter.java:147-152 | a field "description" typed "xsd:string" becomes the attribute ("Description", "text"), not a textarea |
| SchemaTranslator.SkippedGeometryAttribute | src/main/java/com/amine/pfe/drawing_module/infrastructure/service/GeoserverAdapter.java:136-159 | an ignored field, a gml element and an attribute element give that geometry type and that one attribute |
| SchemaTranslator.PointLayerWithDescription | src/main/java/com/amine/pfe/drawing_module/infrastructure/service/GeoserverAdapter.java:136-159 | fid, the_geom (gml:PointPropertyType) and description (xsd:string) give a Point layer with the single attribute ("Description", "text") |
| GeometryEncoder.MapAllOk | src/main/java/com/amine/pfe/drawing_module/infrastructure/service/GeoserverAdapter.java:407-419 | an element loop succeeds if and only if every element converts; then the result has one converted value per element, in order |
| GeometryEncoder.MapAllFirstError | src/main/java/com/amine/pfe/drawing_module/infrastructure/service/GeoserverAdapter.java:407-419 | the loop fails with the error of the first element that fails |
| GeometryEncoder.MapAllPrefixError | src/main/java/com/amine/pfe/drawing_module/infrastructure/service/GeoserverAdapter.java:407-419 | a failure in a prefix is the failure of the whole loop |
| GeometryEncoder.MapAllErrorFrom | src/main/java/com/amine/pfe/drawing_module/infrastructure/service/GeoserverAdapter.java:407-419 | every failure of the loop is the failure of one of its elements |
| GeometryEncoder.ConvertElements | src/main/java/com/amine/pfe/drawing_module/infrastructure/service/GeoserverAdapter.java:405-420 | the array-filling loop over Object[] or List elements equals the element-wise conversion (Number, parsed String, else unsupported) |
| GeometryEncoder.ParseParts | src/main/java/com/amine/pfe/drawing_module/infrastructure/service/GeoserverAdapter.java:450-454 | the loop over the parts of a bracketed string equals parsing each trimmed part |
| GeometryEncoder.WidenFloats | src/main/java/com/amine/pfe/drawing_module/infrastructure/service/GeoserverAdapter.java:462-468 | the widening loop keeps every value, in order |
| GeometryEncoder.ExtractRaw | src/main/java/com/amine/pfe/drawing_module/infrastructure/service/GeoserverAdapter.java:401-477 | definition of extractCoordinatesOriginal by coordinate shape; proved about it in ExtractElements, ExtractString, ExtractUnrecognized and ExtractErrors |
| GeometryEncoder.ExtractCoordinatesOriginal | src/main/java/com/amine/pfe/drawing_module/infrastructure/service/GeoserverAdapter.java:401-477 | the dispatch over the coordinate shapes equals the extraction function |
| GeometryEncoder.ExtractCoordinates | src/main/java/com/amine/pfe/drawing_module/infrastructure/service/GeoserverAdapter.java:390-399 | equals the forced-to-2D extraction |
| GeometryEncoder.Extract | src/main/java/com/amine/pfe/drawing_module/infrastructure/service/GeoserverAdapter.java:390-399 | succeeds exactly when raw extraction does, with the same error otherwise; the result is a prefix of the raw numbers with min(count, 2) entries |
| GeometryEncoder.ExtractElements | src/main/java/com/amine/pfe/drawing_module/infrastructure/service/GeoserverAdapter.java:403-442 | an Object[] and a List of the same elements extract alike; success if and only if every element converts, then one number per element |
| GeometryEncoder.ExtractFirstBadElement | src/main/java/com/amine/pfe/drawing_module/infrastructure/service/GeoserverAdapter.java:407-419 | the first unconvertible element decides the error; a nested array is an unsupported coordinate |
| GeometryEncoder.ExtractString | src/main/java/com/amine/pfe/drawing_module/infrastructure/service/GeoserverAdapter.java:444-476 | an unbracketed string is an unrecognised format; a bracketed one succeeds if and only if every trimmed part parses, giving the parsed parts in order |
| GeometryEncoder.ExtractUnrecognized | src/main/java/com/amine/pfe/drawing_module/infrastructure/service/GeoserverAdapter.java:471-476 | a lone Number or any other object is an unrecognised format |
| GeometryEncoder.EmptyBracketsRefused | src/main/java/com/amine/pfe/drawing_module/infrastructure/service/GeoserverAdapter.java:447-452 | "[]" yields one empty part, which fails to parse |
| GeometryEncoder.SplitOneTwo | src/main/java/com/amine/pfe/drawing_module/infrastructure/service/GeoserverAdapter.java:449 | "1, 2" splits at the comma into "1" and " 2" |
| GeometryEncoder.BracketPartsOneTwo | src/main/java/com/amine/pfe/drawing_module/infrastructure/service/GeoserverAdapter.java:447-449 | "[1, 2]" is bracketed and its parts are "1" and " 2" |
| GeometryEncoder.TrimOne | src/main/java/com/amine/pfe/drawing_module/infrastructure/service/GeoserverAdapter.java:452 | trimming "1" leaves it unchanged |
| GeometryEncoder.TrimSpaceTwo | src/main/java/com/amine/pfe/drawing_module/infrastructure/service/GeoserverAdapter.java:452 | trimming " 2" gives "2" |
| GeometryEncoder.BracketedPairParsed | src/main/java/com/amine/pfe/drawing_module/infrastructure/service/GeoserverAdapter.java:444-456 | "[1, 2]" extracts to the two numbers that "1" and "2" parse to |
| GeometryEncoder.PointGml | src/main/java/com/amine/pfe/drawing_module/infrastructure/service/GeoserverAdapter.java:295-308 | definition of buildPointGml; proved about it in PointFromFirstTwo |
| GeometryEncoder.PointFromFirstTwo | src/main/java/com/amine/pfe/drawing_module/infrastructure/service/GeoserverAdapter.java:295-308 | a point is written if and only if extraction gives at least two numbers, from the first two; fewer fail as too short; extraction errors pass through |
| GeometryEncoder.PosList | src/main/java/com/amine/pfe/drawing_module/infrastructure/service/GeoserverAdapter.java:316-326 | definition of the posList loop; proved about it in PosTextShape, PosTextAllKept, PosListFailures and PosListErrors |
| GeometryEncoder.Kept | src/main/java/com/amine/pfe/drawing_module/infrastructure/service/GeoserverAdapter.java:320-321 | the points a position list writes all have at least two numbers |
| GeometryEncoder.PosTextShape | src/main/java/com/amine/pfe/drawing_module/infrastructure/service/GeoserverAdapter.java:318-326 | the position list is the kept pairs joined by spaces, preceded by one space exactly when the first point is skipped and some later point is kept |
| GeometryEncoder.PosTextAllKept | src/main/java/com/amine/pfe/drawing_module/infrastructure/service/GeoserverAdapter.java:318-326 | when no point is skipped, the text is the pairs joined by single spaces |
| GeometryEncoder.LeadingSpaceAfterSkippedPoint | src/main/java/com/amine/pfe/drawing_module/infrastructure/service/GeoserverAdapter.java:320-325 | a one-number first point before a full point leaves a leading space |
| GeometryEncoder.PosListFailures | src/main/java/com/amine/pfe/drawing_module/infrastructure/service/GeoserverAdapter.java:318-326 | a position list fails if and only if some point fails to extract; short points do not fail |
| GeometryEncoder.BuildPosList | src/main/java/com/amine/pfe/drawing_module/infrastructure/service/GeoserverAdapter.java:316-326 | the StringBuilder loop equals the position-list function |
| GeometryEncoder.LineStringGml | src/main/java/com/amine/pfe/drawing_module/infrastructure/service/GeoserverAdapter.java:310-333 | definition of buildLineStringGml; proved about it in LineStringShape |
| GeometryEncoder.BuildLineStringGml | src/main/java/com/amine/pfe/drawing_module/infrastructure/service/GeoserverAdapter.java:310-333 | the line-string writer equals its specification |
| GeometryEncoder.LineStringShape | src/main/java/com/amine/pfe/drawing_module/infrastructure/service/GeoserverAdapter.java:310-333 | non-array coordinates fail; an array succeeds if and only if every point extracts, and is written as the posList inside the LineString element |
| GeometryEncoder.BuildRing | src/main/java/com/amine/pfe/drawing_module/infrastructure/service/GeoserverAdapter.java:349-360 | a ring must be an Object[]; its loop equals the position-list function |
| GeometryEncoder.PolygonGml | src/main/java/com/amine/pfe/drawing_module/infrastructure/service/GeoserverAdapter.java:335-388 | definition of buildPolygonGml; proved about it in PolygonShape and PolygonRingErrors |
| GeometryEncoder.BuildPolygonGml | src/main/java/com/amine/pfe/drawing_module/infrastructure/service/GeoserverAdapter.java:335-388 | the polygon writer equals its specification |
| GeometryEncoder.PolygonShape | src/main/java/com/amine/pfe/drawing_module/infrastructure/service/GeoserverAdapter.java:335-388 | zero rings fail; success if and only if there are rings and each is written; then one exterior block from the first ring and one interior block per further ring, in order |
| GeometryEncoder.ExtractErrors | src/main/java/com/amine/pfe/drawing_module/infrastructure/service/GeoserverAdapter.java:401-477 | extraction fails only with an extraction error |
| GeometryEncoder.PosListErrors | src/main/java/com/amine/pfe/drawing_module/infrastructure/service/GeoserverAdapter.java:318-326 | a position list fails only with an extraction error |
| GeometryEncoder.RingErrors | src/main/java/com/amine/pfe/drawing_module/infrastructure/service/GeoserverAdapter.java:349-360 | a ring fails only with an extraction error or by not being an array |
| GeometryEncoder.PolygonRingErrors | src/main/java/com/amine/pfe/drawing_module/infrastructure/service/GeoserverAdapter.java:335-388 | a polygon with rings fails only with an extraction error or a non-array ring |
| GeometryEncoder.GeometryGml | src/main/java/com/amine/pfe/drawing_module/infrastructure/service/GeoserverAdapter.java:282-293 | definition of convertGeometryToGml's dispatch on the lower-cased type; proved about it in DispatchedTypes |
| GeometryEncoder.ConvertGeometryToGml | src/main/java/com/amine/pfe/drawing_module/infrastructure/service/GeoserverAdapter.java:282-293 | the switch equals the dispatch function |
| GeometryEncoder.DispatchedTypes | src/main/java/com/amine/pfe/drawing_module/infrastructure/service/GeoserverAdapter.java:282-293 | the unsupported-type error occurs if and only if the lower-cased type is not point, linestring or polygon |
| GeometryEncoder.CapitalisedTypesDispatched | src/main/java/com/amine/pfe/drawing_module/infrastructure/service/GeoserverAdapter.java:283-287 | "Point" and "LineString" are dispatched to the point and line writers |
| GeometryEncoder.MultiGeometriesRefused | src/main/java/com/amine/pfe/drawing_module/infrastructure/service/GeoserverAdapter.java:290-291 | "MultiPolygon" and "MultiLineString" are refused as unsupported |
| TransactionBuilder.IsEmptyValue | src/main/java/com/amine/pfe/drawing_module/infrastructure/service/GeoserverAdapter.java:266-280 | definition of isEmptyValue; characterised in EmptyValueExactly |
| TransactionBuilder.IgnoreCaseFolds | src/main/java/com/amine/pfe/drawing_module/infrastructure/service/GeoserverAdapter.java:277-279 | a lower-case word equals a string ignoring case if and only if the string folds onto it |
| TransactionBuilder.EmptyValueExactly | src/main/java/com/amine/pfe/drawing_module/infrastructure/service/GeoserverAdapter.java:266-280 | a value is empty if and only if it is null or its trimmed text folds to "", "null" or "undefined" |
| TransactionBuilder.EmptyValueExamples | src/main/java/com/amine/pfe/drawing_module/infrastructure/service/GeoserverAdapter.java:266-280 | "NULL" and "   " are empty; "0" and "false" are values |
| TransactionBuilder.NullWordIsEmpty | src/main/java/com/amine/pfe/drawing_module/infrastructure/service/GeoserverAdapter.java:277-279 | "NULL" is empty |
| TransactionBuilder.BlankIsEmpty | src/main/java/com/amine/pfe/drawing_module/infrastructure/service/GeoserverAdapter.java:271-277 | blanks trim to the empty string |
| TransactionBuilder.ZeroIsValue | src/main/java/com/amine/pfe/drawing_module/infrastructure/service/GeoserverAdapter.java:266-280 | "0" is not empty |
| TransactionBuilder.FalseIsValue | src/main/java/com/amine/pfe/drawing_module/infrastructure/service/GeoserverAdapter.java:266-280 | "false" is not empty |
| TransactionBuilder.EscapeXml | src/main/java/com/amine/pfe/drawing_module/infrastructure/service/GeoserverAdapter.java:479-487 | definition of escapeXml as the five chained replacements; proved about it in EscapeXmlCharwise, EscapeXmlClean and EscapeXmlRoundTrip |
| TransactionBuilder.EscapeXmlConcat | src/main/java/com/amine/pfe/drawing_module/infrastructure/service/GeoserverAdapter.java:479-487 | escaping distributes over concatenation |
| TransactionBuilder.EscapeAmpersand | src/main/java/com/amine/pfe/drawing_module/infrastructure/service/GeoserverAdapter.java:482-486 | "&" becomes "&amp;" |
| TransactionBuilder.EscapeLess | src/main/java/com/amine/pfe/drawing_module/infrastructure/service/GeoserverAdapter.java:482-486 | "<" becomes "&lt;" |
| TransactionBuilder.EscapeGreater | src/main/java/com/amine/pfe/drawing_module/infrastructure/service/GeoserverAdapter.java:482-486 | ">" becomes "&gt;" |
| TransactionBuilder.EscapeQuote | src/main/java/com/amine/pfe/drawing_module/infrastructure/service/GeoserverAdapter.java:482-486 | a double quote becomes "&quot;" |
| TransactionBuilder.EscapeApostrophe | src/main/java/com/amine/pfe/drawing_module/infrastructure/service/GeoserverAdapter.java:482-486 | an apostrophe becomes "&apos;" |
| TransactionBuilder.EscapeOther | src/main/java/com/amine/pfe/drawing_module/infrastructure/service/GeoserverAdapter.java:482-486 | any other character is kept |
| TransactionBuilder.EscapeOneChar | src/main/java/com/amine/pfe/drawing_module/infrastructure/service/GeoserverAdapter.java:482-486 | the five chained replacements on one character give that character's entity |
| TransactionBuilder.EscapeXmlCharwise | src/main/java/com/amine/pfe/drawing_module/infrastructure/service/GeoserverAdapter.java:479-487 | the chained replacements equal escaping character by character (the ampersand goes first, so no entity is escaped twice) |
| TransactionBuilder.EscapeXmlClean | src/main/java/com/amine/pfe/drawing_module/infrastructure/service/GeoserverAdapter.java:479-487 | the output holds no raw <, >, double quote or apostrophe |
| TransactionBuilder.EscapeXmlRoundTrip | src/main/java/com/amine/pfe/drawing_module/infrastructure/service/GeoserverAdapter.java:479-487 | reading the five entities back gives the input; null gives "" |
| TransactionBuilder.Emitted | src/main/java/com/amine/pfe/drawing_module/infrastructure/service/GeoserverAdapter.java:227-228 | every kept property has a non-empty, non-null value |
| TransactionBuilder.EmittedCounts | src/main/java/com/amine/pfe/drawing_module/infrastructure/service/GeoserverAdapter.java:227-228 | each non-empty property is kept as often as it occurs, and no empty one is kept |
| TransactionBuilder.EmittedConcat | src/main/java/com/amine/pfe/drawing_module/infrastructure/service/GeoserverAdapter.java:227-228 | the filter keeps map order: it distributes over concatenation |
| TransactionBuilder.FilterPosition | src/main/java/com/amine/pfe/drawing_module/infrastructure/service/GeoserverAdapter.java:227-228 | every element that passes the stream filter is among its results |
| TransactionBuilder.FilterOrigin | src/main/java/com/amine/pfe/drawing_module/infrastructure/service/GeoserverAdapter.java:227-228 | every result of the stream filter is an element of its input |
| TransactionBuilder.PropertyUpdates | src/main/java/com/amine/pfe/drawing_module/infrastructure/service/GeoserverAdapter.java:227-233 | definition of the property stream: filter, map to elements, join with newlines; proved about it in PropertyWritten and PropertyLines |
| TransactionBuilder.JoinContainsParts | src/main/java/com/amine/pfe/drawing_module/infrastructure/service/GeoserverAdapter.java:233 | each joined part occurs in the join |
| TransactionBuilder.PropertyWritten | src/main/java/com/amine/pfe/drawing_module/infrastructure/service/GeoserverAdapter.java:227-233 | every non-empty property appears in the updates with its key unescaped and its value escaped |
| TransactionBuilder.ElementOneLine | src/main/java/com/amine/pfe/drawing_module/infrastructure/service/GeoserverAdapter.java:229-232 | a property element has no newline when its key and value have none |
| TransactionBuilder.PropertyLines | src/main/java/com/amine/pfe/drawing_module/infrastructure/service/GeoserverAdapter.java:227-233 | for newline-free keys and values, the updates split at newlines into exactly one element per kept property, in map order |
| TransactionBuilder.WfsUpdateTransaction | src/main/java/com/amine/pfe/drawing_module/infrastructure/service/GeoserverAdapter.java:222-258 | definition of the transaction text; proved about it in TransactionNeedsGeometry, TransactionContents and TransactionWritesProperty |
| TransactionBuilder.BuildWfsUpdateTransaction | src/main/java/com/amine/pfe/drawing_module/infrastructure/service/GeoserverAdapter.java:222-258 | the transaction is the text block filled with workspace, layer name, geometry GML, property updates and feature id |
| TransactionBuilder.TransactionNeedsGeometry | src/main/java/com/amine/pfe/drawing_module/infrastructure/service/GeoserverAdapter.java:222-224 | the transaction fails if and only if the geometry conversion fails, with its error |
| TransactionBuilder.TransactionContents | src/main/java/com/amine/pfe/drawing_module/infrastructure/service/GeoserverAdapter.java:235-257 | the text holds the Update tag, the geometry property, the unescaped feature-id filter and the property updates |
| TransactionBuilder.TransactionWritesProperty | src/main/java/com/amine/pfe/drawing_module/infrastructure/service/GeoserverAdapter.java:222-258 | every non-empty property's element occurs in the transaction |
| TransactionBuilder.ParseWfsResponse | src/main/java/com/amine/pfe/drawing_module/infrastructure/service/GeoserverAdapter.java:489-498 | definition of parseWfsResponse; characterised in ResponseVerdict |
| TransactionBuilder.ResponseVerdict | src/main/java/com/amine/pfe/drawing_module/infrastructure/service/GeoserverAdapter.java:489-498 | the qualified totalUpdated test implies the loose one; the verdict is true if and only if the loose marker occurs or neither exception marker does |
| TransactionBuilder.EmptyResponses | src/main/java/com/amine/pfe/drawing_module/infrastructure/service/GeoserverAdapter.java:489-498 | a null body is a failure and an empty body a success |
| TransactionBuilder.ExceptionReportFails | src/main/java/com/amine/pfe/drawing_module/infrastructure/service/GeoserverAdapter.java:494-497 | any body holding an exception marker and neither totalUpdated marker is a failure |
| TransactionBuilder.OwsExceptionReportFails | src/main/java/com/amine/pfe/drawing_module/infrastructure/service/GeoserverAdapter.java:494-497 | example: the bare report "<ows:ExceptionReport/>" is a failure |
| TransactionBuilder.NoExceptionMarkerSucceeds | src/main/java/com/amine/pfe/drawing_module/infrastructure/service/GeoserverAdapter.java:494-497 | any body holding neither exception marker is a success, whatever update count it reports |
| TransactionBuilder.ZeroUpdatesCountAsSuccess | src/main/java/com/amine/pfe/drawing_module/infrastructure/service/GeoserverAdapter.java:494-497 | example: a body reporting zero updates is a success |
| TransactionBuilder.UpdateFeature | src/main/java/com/amine/pfe/drawing_module/infrastructure/service/GeoserverAdapter.java:176-220 | definition of updateFeature with the server as a parameter; characterised in UpdateFeatureOutcome |
| TransactionBuilder.UpdateFeatureOutcome | src/main/java/com/amine/pfe/drawing_module/infrastructure/service/GeoserverAdapter.java:176-220 | the update succeeds if and only if the transaction is built, the exchange returns, and its body is judged a success; every exception gives false |
| JavaStrings.RawSplitOfJoin | src/main/java/com/amine/pfe/drawing_module/infrastructure/service/GeoserverAdapter.java:170 | splitting a join of separator-free parts at that separator gives back the parts |
| JavaStrings.SplitKeepsNonEmptySegments | src/main/java/com/amine/pfe/drawing_module/infrastructure/service/GeoserverAdapter.java:170 | with no empty segment, split drops nothing |
| JavaStrings.Trim | src/main/java/com/amine/pfe/drawing_module/infrastructure/service/GeoserverAdapter.java:271 | the trimmed string neither starts nor ends with a character up to U+0020 |
| JavaStrings.TrimWindow | src/main/java/com/amine/pfe/drawing_module/infrastructure/service/GeoserverAdapter.java:271 | the trimmed string is a contiguous window of the input, and every character outside that window is up to U+0020 |
| JavaStrings.TrimIsWindow | src/main/java/com/amine/pfe/drawing_module/infrastructure/service/GeoserverAdapter.java:271 | any window with only such characters outside it and none at its two ends is what trim returns, so trim is fully determined |
| JavaStrings.Lower | src/main/java/com/amine/pfe/drawing_module/infrastructure/service/GeoserverAdapter.java:166 | same length, each character lower-cased |
| JavaStrings.LowerIdempotent | src/main/java/com/amine/pfe/drawing_module/infrastructure/service/GeoserverAdapter.java:166 | lower-casing twice is lower-casing once |

## Left out

- HTTP: fetching DescribeFeatureType and posting the transaction (`GeoserverAdapter.java:67-97`, `:176-220`). `updateFeature` takes the exchange as a function parameter: a body (possibly null) or an exception. The URL, Basic-auth header, Base64 and the `RestTemplate` call are not modelled.
- The DOM/XPath/NamespaceContext parse (`GeoserverAdapter.java:101-131`) is a foreign library call. The schema loop takes the selected `xsd:element` nodes as a sequence of (name, type) pairs, and the wrapping `RuntimeException` is not modelled.
- Floating point: `Double.parseDouble` and `String.format(Locale.US, "%.6f")` are parameters. Float-to-double widening is the identity on the reals that represent the float values. NaN and infinities are not represented.
- Logging and the `System.err` debug prints (`GeoserverAdapter.java:178`, `:204-210`, `:472-473`).
- Java `null`: null coordinates and null array elements are one more "other" object. A NullPointerException is not told apart from the other exceptions (every exception means failure). Null geometry type names, null catalog fields, a null feature id (which `String.format` writes as "null") and null property keys are not modelled.
- Property values are modelled by the text `String.valueOf` gives them. Property keys are a sequence in the map's iteration order, so duplicate keys are not ruled out.
- Characters are Unicode scalar values, not UTF-16 code units. `String.toLowerCase` is modelled on ASCII only, as in a non-Turkish default locale; `equalsIgnoreCase` keeps Java's extra foldings onto i, s and k.
- SchemaTranslator.Capitalize, SchemaTranslator.Labelize: `Character.toUpperCase` (`GeoserverAdapter.java:171`) is locale-independent and upper-cases non-ASCII letters too, so Java turns "élévation" into "Élévation" while the model leaves it unchanged; only ASCII letters are upper-cased here.
- GeometryEncoder.ExtractCoordinatesOriginal: returns a fresh value; that the `double[]` case hands back the caller's own array (aliasing) is not modelled.
- LayerManagerAdapter.java, DrawingRestController.java and CartographicServerPort.java are not part of this model: orchestration, Spring routing and an interface.
