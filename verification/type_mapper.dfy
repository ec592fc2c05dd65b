/** The translation of one OData type tag into a TypeScript type name
    (`Field::convert_to_ts`, `parse_str` and `parse_collection` in src/internals.rs). */
module TypeMapper {
  import opened Results
  import opened Text

  /** The tag prefix that marks a collection type; eleven characters long. */
  const CollectionPrefix: string := "Collection("

  /** What every tag outside the table translates to. */
  const Fallback: string := "any"

  /** The fixed table of known primitive tags. */
  const PrimitiveTable: map<string, string> := map[
    "Edm.String" := "string",
    "Edm.GeographyPoint" := "Coordinates",
    "Edm.Double" := "number",
    "Edm.Int32" := "number",
    "Edm.Int64" := "number",
    "Edm.DateTimeOffset" := "Date",
    "Edm.Boolean" := "boolean",
    "Edm.ComplexType" := "{}"
  ]

  /** Every name a primitive tag can translate to. */
  const TargetNames: set<string> := {"string", "Coordinates", "number", "Date", "boolean", "{}", "any"}

  /** The one way a translation fails: a collection tag with no closing parenthesis,
      where the source's `rfind(")").unwrap()` panics. */
  datatype MapError = MissingCloseParen(tag: string)

  /** An array of some primitive target type, as `parse_collection` writes it. */
  predicate IsArrayType(t: string) {
    |t| >= 2 && t[|t| - 2..] == "[]" && t[..|t| - 2] in TargetNames
  }

  /** `parse_str`: look a tag up verbatim in the table, falling back to `any`. Never fails. */
  function ParseStr(s: string): (r: string)
    ensures r == Fallback <==> s !in PrimitiveTable
    ensures r in TargetNames
  {
    if s in PrimitiveTable then PrimitiveTable[s] else Fallback
  }

  /** `parse_collection`: drop the first eleven characters, cut at the LAST `)`, translate
      what lies before it with `ParseStr` and append `[]`. Text after that `)` is ignored.
      The source only demands that the first eleven characters can be sliced off. */
  function ParseCollection(s: string): (r: Result<string, MapError>)
    requires |s| >= |CollectionPrefix|
    ensures r.Err? <==> ')' !in s[|CollectionPrefix|..]
    ensures r.Err? ==> r.error == MissingCloseParen(s)
    ensures r.Ok? ==> IsArrayType(r.value)
    ensures r.Ok? ==>
      exists k :: |CollectionPrefix| <= k < |s| && s[k] == ')' && ')' !in s[k + 1..]
        && r.value == ParseStr(s[|CollectionPrefix|..k]) + "[]"
  {
    var content := s[|CollectionPrefix|..];
    match LastIndexOf(content, ')')
    case None => Err(MissingCloseParen(s))
    case Some(end) =>
      var k := |CollectionPrefix| + end;
      assert s[k] == content[end];
      assert s[k + 1..] == content[end + 1..];
      assert s[|CollectionPrefix|..k] == content[..end];
      var r := ParseStr(content[..end]) + "[]";
      assert r[..|r| - 2] == ParseStr(content[..end]);
      Ok(r)
  }

  /** `convert_to_ts`: collection tags go to `ParseCollection`, all others to `ParseStr`. */
  function ConvertToTs(tag: string): (r: Result<string, MapError>)
    ensures !StartsWith(tag, CollectionPrefix) ==> r == Ok(ParseStr(tag))
    ensures StartsWith(tag, CollectionPrefix) ==> r == ParseCollection(tag)
    ensures r.Err? <==> StartsWith(tag, CollectionPrefix) && ')' !in tag[|CollectionPrefix|..]
    ensures r.Ok? ==> r.value in TargetNames || IsArrayType(r.value)
  {
    if StartsWith(tag, CollectionPrefix) then ParseCollection(tag) else Ok(ParseStr(tag))
  }

  /** Each of the eight known tags translates to its tabled name; nothing else fails. */
  lemma KnownPrimitives()
    ensures ParseStr("Edm.String") == "string"
    ensures ParseStr("Edm.GeographyPoint") == "Coordinates"
    ensures ParseStr("Edm.Double") == "number"
    ensures ParseStr("Edm.Int32") == "number"
    ensures ParseStr("Edm.Int64") == "number"
    ensures ParseStr("Edm.DateTimeOffset") == "Date"
    ensures ParseStr("Edm.Boolean") == "boolean"
    ensures ParseStr("Edm.ComplexType") == "{}"
    ensures ConvertToTs("Edm.Unsupported") == Ok("any")
  {
    assert "Edm.Unsupported"[0] != CollectionPrefix[0];
  }

  /** Every tag in the table starts with `E` (from `Edm.`), so no collection tag is one. */
  lemma TableTagsAreEdm()
    ensures forall k :: k in PrimitiveTable ==> |k| > 0 && k[0] == 'E'
  {
  }

  /** A well-formed collection `Collection(T)R`, with no `)` in the trailing text `R`,
      translates to the translation of `T` with `[]` appended, whatever `T` holds. */
  lemma {:induction false} CollectionCutsAtLastParen(inner: string, rest: string)
    requires ')' !in rest
    ensures ConvertToTs(CollectionPrefix + inner + ")" + rest) == Ok(ParseStr(inner) + "[]")
  {
    var s := CollectionPrefix + inner + ")" + rest;
    var content := inner + ")" + rest;
    assert s == CollectionPrefix + content;
    assert s[..|CollectionPrefix|] == CollectionPrefix;
    assert s[|CollectionPrefix|..] == content;
    assert content[|inner| + 1..] == rest;
    LastIndexOfIs(content, ')', |inner|);
    assert content[..|inner|] == inner;
  }

  /** A collection of a known primitive is an array of its tabled name. */
  lemma KnownCollection(t: string)
    requires t in PrimitiveTable
    ensures ConvertToTs(CollectionPrefix + t + ")") == Ok(PrimitiveTable[t] + "[]")
  {
    CollectionCutsAtLastParen(t, "");
    assert CollectionPrefix + t + ")" + "" == CollectionPrefix + t + ")";
  }

  /** The inner tag goes through `ParseStr`, not `ConvertToTs`: a nested collection is
      not resolved, it becomes `any[]` (for instance `Collection(Collection(Edm.String))`). */
  lemma {:induction false} NestedCollectionIsAnyArray(inner: string)
    ensures ConvertToTs(CollectionPrefix + CollectionPrefix + inner + "))") == Ok(Fallback + "[]")
  {
    var t := CollectionPrefix + inner + ")";
    CollectionCutsAtLastParen(t, "");
    assert CollectionPrefix + t + ")" + "" == CollectionPrefix + CollectionPrefix + inner + "))";
    CollectionTagIsNotPrimitive(t);
  }

  /** No tag starting with `C`, and so no collection tag, is in the primitive table. */
  lemma CollectionTagIsNotPrimitive(t: string)
    requires |t| > 0 && t[0] == 'C'
    ensures ParseStr(t) == Fallback
  {
    TableTagsAreEdm();
  }

  /** A collection tag without any `)` after the prefix is an error, never a type name. */
  lemma {:induction false} UnclosedCollectionFails(inner: string)
    requires ')' !in inner
    ensures ConvertToTs(CollectionPrefix + inner) == Err(MissingCloseParen(CollectionPrefix + inner))
  {
    var s := CollectionPrefix + inner;
    assert s[..|CollectionPrefix|] == CollectionPrefix;
    assert s[|CollectionPrefix|..] == inner;
  }

  /** An example: `Collection(Edm.String)` gives `string[]`. */
  lemma StringCollectionExample()
    ensures ConvertToTs(CollectionPrefix + "Edm.String" + ")") == Ok("string[]")
  {
    CollectionCutsAtLastParen("Edm.String", "");
    assert CollectionPrefix + "Edm.String" + ")" + "" == CollectionPrefix + "Edm.String" + ")";
    assert ParseStr("Edm.String") == "string";
    assert "string" + "[]" == "string[]";
  }

  /** An example: `Collection(Edm.String`, with its `)` missing, is an error. */
  lemma UnclosedCollectionExample()
    ensures ConvertToTs("Collection(Edm.String") == Err(MissingCloseParen("Collection(Edm.String"))
  {
    var tag := CollectionPrefix + "Edm.String";
    UnclosedCollectionFails("Edm.String");
    forall i | 0 <= i < |tag| ensures tag[i] == "Collection(Edm.String"[i] {}
  }
}
