/** The data-modalities build script (common/data-modalities/build.rs): it gathers the
    type definitions the derive macro leaves in `.type.json` files, keeps the last
    definition of each name, and generates TypeScript declarations and a Protobuf schema
    from them. The directory walk and the file reads are parameters; so is the JSON
    decoder of one definition line. */
module BuildGen {
  import opened Wrappers
  import opened Text
  import opened Decimal
  import opened Sorting

  /** `LifelogMacroMetaDataType`. */
  datatype MetaDataType = ConfigType | DataType | NoneType

  /** `DataTypeDefinition`: a struct's `(name, type)` fields, or an enum's variants. */
  datatype TypeDef = TypeDef(ident: string, fields: seq<(string, string)>, variants: seq<string>,
                             metadataType: MetaDataType)

  /** Whether some definition has the name `t`. */
  predicate Defines(types: seq<TypeDef>, t: string) {
    exists i :: 0 <= i < |types| && types[i].ident == t
  }

  // ---------------------------------------------------------------------------------
  // The scalar maps

  /** The Rust scalar types the three `map_*` helpers name. */
  const Scalars: set<string> :=
    {"bool", "i8", "i16", "i32", "i64", "isize", "u8", "u16", "u32", "u64", "usize",
     "f32", "f64", "char", "String", "&str"}

  /** `map_ts_type`: a scalar's TypeScript type; anything else is "any". */
  function MapTsType(ty: string): (r: string)
    ensures r == "any" <==> ty !in Scalars
    ensures ty in Scalars ==> r in {"boolean", "number", "string"}
  {
    if ty == "bool" then "boolean"
    else if ty in {"i8", "i16", "i32", "i64", "isize", "u8", "u16", "u32", "u64", "usize", "f32", "f64"}
    then "number"
    else if ty in {"char", "String", "&str"} then "string"
    else "any"
  }

  /** `map_protobuf_type`: a scalar's Protobuf type; anything else is "string". */
  function MapProtobufType(ty: string): (r: string)
    ensures ty !in Scalars ==> r == "string"
    ensures r in {"bool", "int32", "int64", "uint32", "uint64", "float", "double", "string"}
  {
    if ty == "bool" then "bool"
    else if ty in {"i8", "i16", "i32"} then "int32"
    else if ty in {"i64", "isize"} then "int64"
    else if ty in {"u8", "u16", "u32"} then "uint32"
    else if ty in {"u64", "usize"} then "uint64"
    else if ty == "f32" then "float"
    else if ty == "f64" then "double"
    else "string"
  }

  /** `map_wrapper_type`: the name of the `google.protobuf.*Value` wrapper of a scalar;
      anything else, `isize` and `usize` included, is "String". */
  function MapWrapperType(ty: string): (r: string)
    ensures ty !in Scalars - {"char", "&str", "isize", "usize"} ==> r == "String"
  {
    if ty == "bool" then "Bool"
    else if ty in {"i8", "i16", "i32"} then "Int32"
    else if ty == "i64" then "Int64"
    else if ty in {"u8", "u16", "u32"} then "UInt32"
    else if ty == "u64" then "UInt64"
    else if ty == "f32" then "Float"
    else if ty == "f64" then "Double"
    else "String"
  }

  /** The wrapper message of each Protobuf scalar. */
  const WrapperOf: map<string, string> :=
    map["bool" := "Bool", "int32" := "Int32", "int64" := "Int64", "uint32" := "UInt32",
        "uint64" := "UInt64", "float" := "Float", "double" := "Double", "string" := "String"]

  /** The three maps agree on every scalar: TypeScript's number, string and boolean are
      Protobuf's numeric types, string and bool, and the wrapper of a scalar is the wrapper
      of its Protobuf type, except that `isize` and `usize` wrap as strings although they
      map to 64-bit integers. */
  lemma ScalarMapsAgree(t: string)
    requires t in Scalars
    ensures MapTsType(t) == "number" <==> MapProtobufType(t) !in {"bool", "string"}
    ensures MapTsType(t) == "boolean" <==> MapProtobufType(t) == "bool"
    ensures t !in {"isize", "usize"} ==> MapWrapperType(t) == WrapperOf[MapProtobufType(t)]
    ensures t in {"isize", "usize"} ==> MapWrapperType(t) == "String" && MapProtobufType(t) != "string"
  {
  }

  // ---------------------------------------------------------------------------------
  // Field types

  /** The field types the TypeScript generator names outright. */
  const TsExact: map<string, string> :=
    map["bool" := "boolean",
        "i8" := "number", "i16" := "number", "i32" := "number", "i64" := "number", "isize" := "number",
        "u8" := "number", "u16" := "number", "u32" := "number", "u64" := "number", "usize" := "number",
        "f32" := "number", "f64" := "number",
        "char" := "string", "String" := "string", "&str" := "string",
        "DateTime<Utc>" := "Date",
        "::lifelog_core::uuid::Uuid" := "string",
        "::lifelog_core::chrono::DateTime<::lifelog_core::chrono::Utc>" := "Date",
        "::lifelog_core::chrono::NaiveDate" := "Date",
        "::lifelog_core::chrono::NaiveDateTime" := "Date",
        "std::path::PathBuf" := "string", "PathBuf" := "string",
        "std::net::IpAddr" := "string", "std::net::SocketAddr" := "string",
        "std::collections::HashMap<String,String>" := "Record<string,string>",
        "std::collections::BTreeMap<String,String>" := "Record<string,string>",
        "Vec<u8>" := "Uint8Array", "Vec<String>" := "string[]", "Vec<i32>" := "number[]",
        "Option<String>" := "string | null", "Option<bool>" := "boolean | null",
        "Option<i32>" := "number | null",
        "serde_json::Value" := "any"]

  /** The field types the Protobuf generator names outright, with whether each is
      `repeated`. */
  const ProtoExact: map<string, (string, bool)> :=
    map["bool" := ("bool", false),
        "i8" := ("int32", false), "i16" := ("int32", false), "i32" := ("int32", false),
        "i64" := ("int64", false), "isize" := ("int64", false),
        "u8" := ("uint32", false), "u16" := ("uint32", false), "u32" := ("uint32", false),
        "u64" := ("uint64", false), "usize" := ("uint64", false),
        "f32" := ("float", false), "f64" := ("double", false),
        "char" := ("string", false), "String" := ("string", false), "&str" := ("string", false),
        "PathBuf" := ("string", false),
        "DateTime<Utc>" := ("google.protobuf.Timestamp", false),
        "::lifelog_core::chrono::DateTime<::lifelog_core::chrono::Utc>" := ("google.protobuf.Timestamp", false),
        "::lifelog_core::chrono::NaiveDate" := ("google.protobuf.Timestamp", false),
        "::lifelog_core::chrono::NaiveDateTime" := ("google.protobuf.Timestamp", false),
        "::lifelog_core::uuid::Uuid" := ("string", false),
        "std::net::IpAddr" := ("string", false), "std::net::SocketAddr" := ("string", false),
        "std::collections::HashMap<String,String>" := ("map<string,string>", false),
        "std::collections::BTreeMap<String,String>" := ("map<string,string>", false),
        "Vec<u8>" := ("bytes", false), "Vec<String>" := ("string", true), "Vec<i32>" := ("int32", true),
        "Option<String>" := ("google.protobuf.StringValue", false),
        "Option<bool>" := ("google.protobuf.BoolValue", false),
        "Option<i32>" := ("google.protobuf.Int32Value", false),
        "serde_json::Value" := ("google.protobuf.Any", false)]

  /** What is left of `t` after every leading `wrapper` and every trailing '>'. */
  function Inner(t: string, wrapper: string): string
    requires |wrapper| > 0
  {
    TrimEndChars(TrimStartMatches(t, wrapper), {'>'})
  }

  /** The TypeScript type of a field, trying in turn: the fixed table, the definitions'
      own names, tuples, vectors, options and maps; anything else is "any". */
  function TsType(t: string, types: seq<TypeDef>): string {
    if t in TsExact then TsExact[t]
    else if Defines(types, t) then t
    else if StartsWith(t, "(") then "any"
    else if Contains(t, "Vec<") then
      var inner := Inner(t, "Vec<");
      if inner == "u8" then "Uint8Array" else MapTsType(inner) + "[]"
    else if Contains(t, "Option<") then MapTsType(Inner(t, "Option<")) + " | null"
    else if Contains(t, "HashMap<") || Contains(t, "BTreeMap<") then "Record<string, any>"
    else "any"
  }

  /** A map's key or value type in the Protobuf schema: a definition's own name, or a
      scalar's Protobuf type. */
  function ProtoMapPart(k: string, types: seq<TypeDef>): string {
    if Defines(types, k) then k else MapProtobufType(k)
  }

  /** The Protobuf type of a field, and whether it is `repeated`, trying in turn: the fixed
      table, tuples, vectors, options, maps and the definitions' own names. None is the
      build's panic on an unsupported type, or on a map type with no ',' in it. */
  function ProtoType(t: string, types: seq<TypeDef>): Option<(string, bool)> {
    if t in ProtoExact then Some(ProtoExact[t])
    else if StartsWith(t, "(") then Some(("string", false))
    else if Contains(t, "Vec<") then Some((MapProtobufType(Inner(t, "Vec<")), true))
    else if Contains(t, "Option<") then
      Some(("google.protobuf." + MapWrapperType(Inner(t, "Option<")) + "Value", false))
    else if Contains(t, "HashMap<") || Contains(t, "BTreeMap<") then
      var parts := Split(TrimEndChars(t, {'>'}), '<');
      if |parts| < 2 then None
      else
        var kv := Map(Split(parts[1], ','), Trim);
        if |kv| < 2 then None
        else Some(("map<" + ProtoMapPart(kv[0], types) + "," + ProtoMapPart(kv[1], types) + ">", false))
    else if Defines(types, t) then Some((t, false))
    else None
  }

  /** A pattern occurs only in a text holding each of its characters. */
  lemma {:induction false} ContainsNeedsChar(s: string, pat: string, c: char)
    requires c in pat && Contains(s, pat)
    ensures c in s
    decreases |s|
  {
    if StartsWith(s, pat) {
      assert c in s[..|pat|];
    } else {
      ContainsNeedsChar(s[1..], pat, c);
    }
  }

  /** A definition's own name is kept as the TypeScript type unless the table names it. */
  lemma TsKeepsDefinedName(t: string, types: seq<TypeDef>)
    requires Defines(types, t) && t !in TsExact
    ensures TsType(t, types) == t
  {
  }

  /** Appending a '>' to a text that does not start with "Vec<" and does not end with '>'
      does not make it start with "Vec<". */
  lemma VecPrefixKept(x: string)
    requires !StartsWith(x, "Vec<") && (x == [] || x[|x| - 1] != '>')
    ensures !StartsWith(x + ">", "Vec<")
  {
    var y := x + ">";
    if |x| >= 4 {
      assert x[..4] == y[..4];
    } else if |x| == 3 {
      assert y[3] == '>' && "Vec<"[3] == '<';
    }
  }

  /** `Vec<x>` passes the tuple test and the Vec test. */
  lemma VecWraps(x: string)
    ensures !StartsWith("Vec<" + x + ">", "(") && Contains("Vec<" + x + ">", "Vec<")
  {
    var t := "Vec<" + x + ">";
    assert t[0] == 'V';
    ContainsAt([], "Vec<", x + ">");
    assert [] + "Vec<" + (x + ">") == t;
  }

  /** `Vec<x>` unwraps to `x` when `x` neither starts with "Vec<" nor ends with '>'. */
  lemma VecInner(x: string)
    requires !StartsWith(x, "Vec<") && (x == [] || x[|x| - 1] != '>')
    ensures Inner("Vec<" + x + ">", "Vec<") == x
  {
    var t := "Vec<" + x + ">";
    assert t[..4] == "Vec<" && t[4..] == x + ">";
    VecPrefixKept(x);
    assert TrimStartMatches(t, "Vec<") == x + ">";
    assert (x + ">")[..|x|] == x;
  }

  /** `Vec<x>` of an element type the table does not name outright is an array of the
      element's TypeScript type. */
  lemma TsVecOf(x: string, types: seq<TypeDef>)
    requires !StartsWith(x, "Vec<") && (x == [] || x[|x| - 1] != '>')
    requires "Vec<" + x + ">" !in TsExact && !Defines(types, "Vec<" + x + ">")
    ensures TsType("Vec<" + x + ">", types) == if x == "u8" then "Uint8Array" else MapTsType(x) + "[]"
  {
    VecWraps(x);
    VecInner(x);
  }

  /** `Vec<x>` of an element type the table does not name outright is a `repeated` field
      of the element's Protobuf type. */
  lemma ProtoVecOf(x: string, types: seq<TypeDef>)
    requires !StartsWith(x, "Vec<") && (x == [] || x[|x| - 1] != '>')
    requires "Vec<" + x + ">" !in ProtoExact
    ensures ProtoType("Vec<" + x + ">", types) == Some((MapProtobufType(x), true))
  {
    VecWraps(x);
    VecInner(x);
  }

  /** A type with no '<' in it names no vector, option or map. */
  lemma NoWrapper(t: string)
    requires '<' !in t
    ensures !Contains(t, "Vec<") && !Contains(t, "Option<")
    ensures !Contains(t, "HashMap<") && !Contains(t, "BTreeMap<")
  {
    if Contains(t, "Vec<") { ContainsNeedsChar(t, "Vec<", '<'); }
    if Contains(t, "Option<") { ContainsNeedsChar(t, "Option<", '<'); }
    if Contains(t, "HashMap<") { ContainsNeedsChar(t, "HashMap<", '<'); }
    if Contains(t, "BTreeMap<") { ContainsNeedsChar(t, "BTreeMap<", '<'); }
  }

  /** A plain type name that neither table nor any definition knows is "any" in
      TypeScript and stops the Protobuf build. */
  lemma UnknownPlainType(t: string, types: seq<TypeDef>)
    requires '<' !in t && (t == [] || t[0] != '(') && !Defines(types, t)
    ensures t !in TsExact ==> TsType(t, types) == "any"
    ensures t !in ProtoExact ==> ProtoType(t, types) == None
  {
    NoWrapper(t);
  }

  /** The Protobuf table lacks `std::path::PathBuf`, which the TypeScript table maps to a
      string: a plain type name, so a field of that type stops the Protobuf build unless a
      definition has that very name. */
  lemma StdPathBufOnlyInTs()
    ensures "std::path::PathBuf" in TsExact && TsExact["std::path::PathBuf"] == "string"
    ensures "std::path::PathBuf" !in ProtoExact && "PathBuf" in ProtoExact
    ensures '<' !in "std::path::PathBuf" && "std::path::PathBuf"[0] != '('
  {
  }

  /** Every other type the TypeScript table names outright is in the Protobuf table, so
      never stops the build. */
  lemma TablesAgree(t: string, types: seq<TypeDef>)
    requires t in TsExact && t != "std::path::PathBuf"
    ensures t in ProtoExact && ProtoType(t, types) == Some(ProtoExact[t])
  {
  }

  // ---------------------------------------------------------------------------------
  // The TypeScript generator

  const TsHeader: string := "// Auto\U{2010}generated types\n\n"

  /** The field-type map the TypeScript generator uses for a set of definitions. */
  function TsTypeOf(types: seq<TypeDef>): string -> string {
    t => TsType(t, types)
  }

  function Quoted(v: string): string {
    "\"" + v + "\""
  }

  function TsFieldLine(f: (string, string), tsType: string -> string): string {
    "  " + f.0 + ": " + tsType(f.1) + ";\n"
  }

  function TsFieldLines(fields: seq<(string, string)>, tsType: string -> string): (ls: seq<string>)
    ensures |ls| == |fields|
  {
    seq(|fields|, k requires 0 <= k < |fields| => TsFieldLine(fields[k], tsType))
  }

  /** An enum as a union of its quoted variants, a struct as an interface with one line
      per field. */
  function TsBlock(d: TypeDef, tsType: string -> string): string {
    if d.variants != [] then
      "export type " + d.ident + " = " + Join(Map(d.variants, Quoted), " | ") + ";\n\n"
    else
      "export interface " + d.ident + " {\n" + Flatten(TsFieldLines(d.fields, tsType)) + "}\n\n"
  }

  function TsBlocks(ts: seq<TypeDef>, tsType: string -> string): (bs: seq<string>)
    ensures |bs| == |ts|
  {
    seq(|ts|, i requires 0 <= i < |ts| => TsBlock(ts[i], tsType))
  }

  /** The generated TypeScript file: the header, then one block per definition in order. */
  function TsOutput(types: seq<TypeDef>): string {
    TsHeader + Flatten(TsBlocks(types, TsTypeOf(types)))
  }

  lemma FlattenPush<T>(ss: seq<seq<T>>, x: seq<T>)
    ensures Flatten(ss + [x]) == Flatten(ss) + x
  {
    assert (ss + [x])[..|ss|] == ss;
  }

  /** `TypeScriptGenerator::generate`, pushing each block onto the output as it goes. */
  method TypeScriptGenerate(types: seq<TypeDef>) returns (output: string)
    ensures output == TsOutput(types)
  {
    output := TsBlocksText(types, TsTypeOf(types), TsHeader);
  }

  /** The generator's loop over the definitions, appending to `start`. */
  method TsBlocksText(types: seq<TypeDef>, tsType: string -> string, start: string) returns (output: string)
    ensures output == start + Flatten(TsBlocks(types, tsType))
  {
    output := start;
    for i := 0 to |types|
      invariant output == start + Flatten(TsBlocks(types[..i], tsType))
    {
      var d := types[i];
      var block: string;
      if d.variants != [] {
        var union := Join(Map(d.variants, Quoted), " | ");
        block := "export type " + d.ident + " = " + union + ";\n\n";
      } else {
        block := TsInterface(d.ident, d.fields, tsType);
      }
      TsBlocksPush(start, types, i, tsType);
      output := output + block;
    }
    assert types[..|types|] == types;
  }

  /** A struct's interface block: its header, a line per field, and the closing brace. */
  method TsInterface(ident: string, fields: seq<(string, string)>, tsType: string -> string) returns (block: string)
    ensures block == "export interface " + ident + " {\n" + Flatten(TsFieldLines(fields, tsType)) + "}\n\n"
  {
    var head := "export interface " + ident + " {\n";
    block := head;
    for k := 0 to |fields|
      invariant block == head + Flatten(TsFieldLines(fields[..k], tsType))
    {
      var (name, ty) := fields[k];
      TsFieldLinesPush(head, fields, k, tsType);
      block := block + ("  " + name + ": " + tsType(ty) + ";\n");
    }
    assert fields[..|fields|] == fields;
    block := block + "}\n\n";
  }

  lemma TsFieldLinesPush(head: string, fields: seq<(string, string)>, k: nat, tsType: string -> string)
    requires k < |fields|
    ensures head + Flatten(TsFieldLines(fields[..k + 1], tsType)) ==
            head + Flatten(TsFieldLines(fields[..k], tsType)) + TsFieldLine(fields[k], tsType)
  {
    var ls := TsFieldLines(fields[..k], tsType);
    assert TsFieldLines(fields[..k + 1], tsType) == ls + [TsFieldLine(fields[k], tsType)];
    FlattenPush(ls, TsFieldLine(fields[k], tsType));
  }

  lemma TsBlocksPush(start: string, types: seq<TypeDef>, i: nat, tsType: string -> string)
    requires i < |types|
    ensures start + Flatten(TsBlocks(types[..i + 1], tsType)) ==
            start + Flatten(TsBlocks(types[..i], tsType)) + TsBlock(types[i], tsType)
  {
    var bs := TsBlocks(types[..i], tsType);
    assert TsBlocks(types[..i + 1], tsType) == bs + [TsBlock(types[i], tsType)];
    FlattenPush(bs, TsBlock(types[i], tsType));
  }

  // ---------------------------------------------------------------------------------
  // The Protobuf generator

  const ProtoHeader: string :=
    "syntax = \"proto3\";\npackage lifelog;\n\nimport \"google/protobuf/timestamp.proto\";\n"
    + "import \"google/protobuf/any.proto\";\nimport \"google/protobuf/wrappers.proto\";\n\n"

  /** The field-type map the Protobuf generator uses for a set of definitions. */
  function ProtoTypeOf(types: seq<TypeDef>): string -> Option<(string, bool)> {
    t => ProtoType(t, types)
  }

  function EnumLine(v: string, i: nat): string {
    "  " + v + " = " + NatToString(i) + ";\n"
  }

  /** An enum's variants, the `i`-th numbered `i`. */
  function EnumLines(vs: seq<string>): (ls: seq<string>)
    ensures |ls| == |vs|
  {
    seq(|vs|, i requires 0 <= i < |vs| => EnumLine(vs[i], i))
  }

  function FieldLine(name: string, pb: (string, bool), number: nat): string {
    if pb.1 then "  repeated " + pb.0 + " " + name + " = " + NatToString(number) + ";\n"
    else "  " + pb.0 + " " + name + " = " + NatToString(number) + ";\n"
  }

  /** Every field has a Protobuf type. */
  predicate FieldsSupported(fields: seq<(string, string)>, pbType: string -> Option<(string, bool)>) {
    forall k :: 0 <= k < |fields| ==> pbType(fields[k].1).Some?
  }

  /** A struct's fields, the `k`-th numbered `k + 1`. */
  function FieldLines(fields: seq<(string, string)>, pbType: string -> Option<(string, bool)>): (ls: seq<string>)
    requires FieldsSupported(fields, pbType)
    ensures |ls| == |fields|
  {
    seq(|fields|, k requires 0 <= k < |fields| => FieldLine(fields[k].0, pbType(fields[k].1).value, k + 1))
  }

  /** Every struct's fields have Protobuf types: the build does not stop. */
  predicate Supported(ts: seq<TypeDef>, pbType: string -> Option<(string, bool)>) {
    forall i :: 0 <= i < |ts| && ts[i].variants == [] ==> FieldsSupported(ts[i].fields, pbType)
  }

  function ProtoBlock(d: TypeDef, pbType: string -> Option<(string, bool)>): string
    requires d.variants != [] || FieldsSupported(d.fields, pbType)
  {
    if d.variants != [] then "enum " + d.ident + " {\n" + Flatten(EnumLines(d.variants)) + "}\n\n"
    else "message " + d.ident + " {\n" + Flatten(FieldLines(d.fields, pbType)) + "}\n\n"
  }

  function ProtoBlocks(ts: seq<TypeDef>, pbType: string -> Option<(string, bool)>): (bs: seq<string>)
    requires Supported(ts, pbType)
    ensures |bs| == |ts|
  {
    seq(|ts|, i requires 0 <= i < |ts| => ProtoBlock(ts[i], pbType))
  }

  predicate IsData(d: TypeDef) {
    d.metadataType == DataType
  }

  function DataLine(d: TypeDef, idx: nat): string {
    "  repeated " + d.ident + " " + AsciiLower(d.ident) + " = " + NatToString(idx) + ";\n"
  }

  /** The `LifelogData` container's lines: the Data-typed definitions only, the `k`-th of
      them numbered `k + 1`. */
  function DataLines(types: seq<TypeDef>): (ls: seq<string>)
    ensures |ls| == |Filter(types, IsData)|
  {
    NumberedLines(Filter(types, IsData))
  }

  /** The container lines of the given definitions, the `k`-th numbered `k + 1`. */
  function NumberedLines(ds: seq<TypeDef>): (ls: seq<string>)
    ensures |ls| == |ds|
  {
    seq(|ds|, k requires 0 <= k < |ds| => DataLine(ds[k], k + 1))
  }

  lemma NumberedLinesSnoc(ds: seq<TypeDef>, d: TypeDef)
    ensures NumberedLines(ds + [d]) == NumberedLines(ds) + [DataLine(d, |ds| + 1)]
  {
    var all := NumberedLines(ds + [d]);
    forall k | 0 <= k < |ds| ensures all[k] == NumberedLines(ds)[k] {
      assert (ds + [d])[k] == ds[k];
    }
    assert all[|ds|] == DataLine(d, |ds| + 1);
  }

  /** The generated schema: the header, one enum or message per definition in order, then
      the `LifelogData` container; None when some field's type stops the build. */
  function ProtoOutput(types: seq<TypeDef>): Option<string> {
    var pbType := ProtoTypeOf(types);
    if Supported(types, pbType) then
      Some(ProtoHeader + Flatten(ProtoBlocks(types, pbType))
           + "message LifelogData {\n" + Flatten(DataLines(types)) + "}\n")
    else None
  }

  /** The container lists exactly the Data-typed definitions, each as a repeated field
      named by its lower-cased name. */
  lemma DataLinesListData(types: seq<TypeDef>, d: TypeDef)
    ensures d in Filter(types, IsData) <==> d in types && IsData(d)
    ensures forall k :: 0 <= k < |DataLines(types)| ==> IsData(Filter(types, IsData)[k])
  {
    FilterMembers(types, IsData, d);
  }

  /** `ProtobufGenerator::generate`; None is the panic on an unsupported field type. */
  method ProtobufGenerate(types: seq<TypeDef>) returns (output: Option<string>)
    ensures output == ProtoOutput(types)
  {
    var pbType := ProtoTypeOf(types);
    var body := ProtoBlocksText(types, pbType, ProtoHeader);
    if body.None? {
      return None;
    }
    var out := DataLinesText(types, body.value + "message LifelogData {\n");
    output := Some(out + "}\n");
  }

  /** The loop over the definitions, pushing each enum's or message's block onto `start`;
      None is the panic on an unsupported field type. */
  method ProtoBlocksText(types: seq<TypeDef>, pbType: string -> Option<(string, bool)>, start: string)
    returns (output: Option<string>)
    ensures output.Some? <==> Supported(types, pbType)
    ensures output.Some? ==> output.value == start + Flatten(ProtoBlocks(types, pbType))
  {
    var out := start;
    for i := 0 to |types|
      invariant Supported(types[..i], pbType)
      invariant out == start + Flatten(ProtoBlocks(types[..i], pbType))
    {
      var d := types[i];
      var block: string;
      if d.variants != [] {
        block := ProtoEnum(d.ident, d.variants);
      } else {
        var message := ProtoMessage(d.ident, d.fields, pbType);
        if message.None? {
          assert !Supported(types, pbType) by {
            assert !FieldsSupported(types[i].fields, pbType);
          }
          return None;
        }
        block := message.value;
      }
      ProtoBlocksPush(start, types, i, pbType);
      out := out + block;
    }
    assert types[..|types|] == types;
    output := Some(out);
  }

  /** An enum's block, its variants numbered by their position from 0. */
  method ProtoEnum(ident: string, variants: seq<string>) returns (block: string)
    requires variants != []
    ensures block == "enum " + ident + " {\n" + Flatten(EnumLines(variants)) + "}\n\n"
  {
    var head := "enum " + ident + " {\n";
    block := head;
    for v := 0 to |variants|
      invariant block == head + Flatten(EnumLines(variants[..v]))
    {
      EnumLinesPush(head, variants, v);
      block := block + ("  " + variants[v] + " = " + NatToString(v) + ";\n");
    }
    assert variants[..|variants|] == variants;
    block := block + "}\n\n";
  }

  /** A message's block, numbering its fields from 1 with a counter; None when a field's
      type has no Protobuf type. */
  method ProtoMessage(ident: string, fields: seq<(string, string)>, pbType: string -> Option<(string, bool)>)
    returns (block: Option<string>)
    ensures block.Some? <==> FieldsSupported(fields, pbType)
    ensures block.Some? ==> block.value == "message " + ident + " {\n" + Flatten(FieldLines(fields, pbType)) + "}\n\n"
  {
    var head := "message " + ident + " {\n";
    var out := head;
    var fieldNumber := 1;
    for k := 0 to |fields|
      invariant fieldNumber == k + 1
      invariant FieldsSupported(fields[..k], pbType)
      invariant out == head + Flatten(FieldLines(fields[..k], pbType))
    {
      var (name, ty) := fields[k];
      var pb := pbType(ty);
      if pb.None? {
        assert !pbType(fields[k].1).Some?;
        return None;
      }
      FieldLinesPush(head, fields, k, pbType);
      if pb.value.1 {
        out := out + ("  repeated " + pb.value.0 + " " + name + " = " + NatToString(fieldNumber) + ";\n");
      } else {
        out := out + ("  " + pb.value.0 + " " + name + " = " + NatToString(fieldNumber) + ";\n");
      }
      fieldNumber := fieldNumber + 1;
    }
    assert fields[..|fields|] == fields;
    block := Some(out + "}\n\n");
  }

  lemma EnumLinesPush(head: string, vs: seq<string>, v: nat)
    requires v < |vs|
    ensures head + Flatten(EnumLines(vs[..v + 1])) == head + Flatten(EnumLines(vs[..v])) + EnumLine(vs[v], v)
  {
    var ls := EnumLines(vs[..v]);
    assert EnumLines(vs[..v + 1]) == ls + [EnumLine(vs[v], v)];
    FlattenPush(ls, EnumLine(vs[v], v));
  }

  lemma FieldLinesPush(head: string, fields: seq<(string, string)>, k: nat, pbType: string -> Option<(string, bool)>)
    requires k < |fields| && FieldsSupported(fields[..k], pbType) && pbType(fields[k].1).Some?
    ensures FieldsSupported(fields[..k + 1], pbType)
    ensures head + Flatten(FieldLines(fields[..k + 1], pbType)) ==
            head + Flatten(FieldLines(fields[..k], pbType)) + FieldLine(fields[k].0, pbType(fields[k].1).value, k + 1)
  {
    assert FieldsSupported(fields[..k + 1], pbType) by {
      forall j | 0 <= j < k + 1 ensures pbType(fields[j].1).Some? {
        if j < k {
          assert fields[..k][j] == fields[j];
        }
      }
    }
    var ls := FieldLines(fields[..k], pbType);
    var l := FieldLine(fields[k].0, pbType(fields[k].1).value, k + 1);
    assert FieldLines(fields[..k + 1], pbType) == ls + [l];
    FlattenPush(ls, l);
  }

  lemma {:induction false} ProtoBlocksPush(start: string, types: seq<TypeDef>, i: nat, pbType: string -> Option<(string, bool)>)
    requires i < |types| && Supported(types[..i], pbType)
    requires types[i].variants != [] || FieldsSupported(types[i].fields, pbType)
    ensures Supported(types[..i + 1], pbType)
    ensures start + Flatten(ProtoBlocks(types[..i + 1], pbType)) ==
            start + Flatten(ProtoBlocks(types[..i], pbType)) + ProtoBlock(types[i], pbType)
  {
    SupportedPush(types, i, pbType);
    ProtoBlocksSnoc(types, i, pbType);
    FlattenSnocFrom(start, ProtoBlocks(types[..i], pbType), ProtoBlock(types[i], pbType), ProtoBlocks(types[..i + 1], pbType));
  }

  lemma SupportedPush(types: seq<TypeDef>, i: nat, pbType: string -> Option<(string, bool)>)
    requires i < |types| && Supported(types[..i], pbType)
    requires types[i].variants != [] || FieldsSupported(types[i].fields, pbType)
    ensures Supported(types[..i + 1], pbType)
  {
    var t := types[..i + 1];
    forall j | 0 <= j < |t| && t[j].variants == []
      ensures FieldsSupported(t[j].fields, pbType)
    {
      if j < i {
        assert t[j] == types[..i][j];
      }
    }
  }

  lemma ProtoBlocksSnoc(types: seq<TypeDef>, i: nat, pbType: string -> Option<(string, bool)>)
    requires i < |types| && Supported(types[..i], pbType) && Supported(types[..i + 1], pbType)
    ensures ProtoBlocks(types[..i + 1], pbType) == ProtoBlocks(types[..i], pbType) + [ProtoBlock(types[i], pbType)]
  {
    var pre := ProtoBlocks(types[..i], pbType);
    var all := ProtoBlocks(types[..i + 1], pbType);
    forall j | 0 <= j < i ensures all[j] == pre[j] {
      assert types[..i + 1][j] == types[..i][j];
    }
    assert all[i] == ProtoBlock(types[i], pbType);
  }

  /** Text followed by the flattening of one more piece. */
  lemma FlattenSnocFrom<T>(start: seq<T>, ss: seq<seq<T>>, x: seq<T>, all: seq<seq<T>>)
    requires all == ss + [x]
    ensures start + Flatten(all) == start + Flatten(ss) + x
  {
    FlattenPush(ss, x);
  }

  /** The container loop: the Data-typed definitions, numbered from 1 by a counter that
      only they advance. */
  method DataLinesText(types: seq<TypeDef>, start: string) returns (out: string)
    ensures out == start + Flatten(DataLines(types))
  {
    out := start;
    var idx := 1;
    for i := 0 to |types|
      invariant idx == |Filter(types[..i], IsData)| + 1
      invariant out == start + Flatten(DataLines(types[..i]))
    {
      DataLinesPush(start, types, i);
      if types[i].metadataType == DataType {
        out := out + ("  repeated " + types[i].ident + " " + AsciiLower(types[i].ident) + " = " + NatToString(idx) + ";\n");
        idx := idx + 1;
      }
    }
    assert types[..|types|] == types;
  }

  /** One more definition adds its container line exactly when it is Data-typed. */
  lemma {:induction false} DataLinesPush(start: string, types: seq<TypeDef>, i: nat)
    requires i < |types|
    ensures |Filter(types[..i + 1], IsData)| == |Filter(types[..i], IsData)| + (if IsData(types[i]) then 1 else 0)
    ensures start + Flatten(DataLines(types[..i + 1])) == start + Flatten(DataLines(types[..i])) +
              (if IsData(types[i]) then DataLine(types[i], |Filter(types[..i], IsData)| + 1) else [])
  {
    DataFilterPush(types, i);
    var ds := Filter(types[..i], IsData);
    if IsData(types[i]) {
      NumberedLinesSnoc(ds, types[i]);
      FlattenSnocFrom(start, NumberedLines(ds), DataLine(types[i], |ds| + 1), NumberedLines(ds + [types[i]]));
    } else {
      DataLinesSkip(types, i);
      AppendEmpty(start + Flatten(DataLines(types[..i])));
    }
  }

  lemma DataLinesSkip(types: seq<TypeDef>, i: nat)
    requires i < |types| && !IsData(types[i])
    ensures DataLines(types[..i + 1]) == DataLines(types[..i])
  {
    DataFilterPush(types, i);
    assert Filter(types[..i + 1], IsData) == Filter(types[..i], IsData);
  }

  lemma AppendEmpty<T>(s: seq<T>)
    ensures s + [] == s
  {
  }

  lemma DataFilterPush(types: seq<TypeDef>, i: nat)
    requires i < |types|
    ensures Filter(types[..i + 1], IsData) == Filter(types[..i], IsData) + (if IsData(types[i]) then [types[i]] else [])
  {
    assert types[..i + 1] == types[..i] + [types[i]];
    FilterAppend(types[..i], [types[i]], IsData);
  }

  // ---------------------------------------------------------------------------------
  // Gathering the definitions

  /** One entry of the directory walk: its path and file name, or an error the walk skips. */
  datatype WalkEntry = WalkEntry(path: string, name: string)

  /** A file is a metadata file when its name contains ".type.json" anywhere. */
  predicate IsMetadataName(name: string) {
    Contains(name, ".type.json")
  }

  /** The paths of the metadata files among the walk's entries, in walk order. */
  function MetadataPaths(entries: seq<Option<WalkEntry>>): (ps: seq<string>)
    ensures |ps| <= |entries|
  {
    if entries == [] then []
    else
      var e := Last(entries);
      MetadataPaths(entries[..|entries| - 1]) +
      (if e.Some? && IsMetadataName(e.value.name) then [e.value.path] else [])
  }

  /** A path is found exactly when some readable entry with a metadata name has it. */
  lemma {:induction false} MetadataPathsFound(entries: seq<Option<WalkEntry>>, p: string)
    ensures p in MetadataPaths(entries) <==>
              exists i :: 0 <= i < |entries| && entries[i].Some? &&
                          IsMetadataName(entries[i].value.name) && entries[i].value.path == p
    decreases |entries|
  {
    if entries != [] {
      var front := entries[..|entries| - 1];
      MetadataPathsFound(front, p);
      if exists i :: 0 <= i < |front| && front[i].Some? && IsMetadataName(front[i].value.name) && front[i].value.path == p {
        var i :| 0 <= i < |front| && front[i].Some? && IsMetadataName(front[i].value.name) && front[i].value.path == p;
        assert entries[i] == front[i];
      }
      if exists i :: 0 <= i < |entries| && entries[i].Some? && IsMetadataName(entries[i].value.name) && entries[i].value.path == p {
        var i :| 0 <= i < |entries| && entries[i].Some? && IsMetadataName(entries[i].value.name) && entries[i].value.path == p;
        if i < |front| {
          assert front[i] == entries[i];
        }
      }
    }
  }

  /** `find_metadata_files`, pushing each matching path as the walk yields it. */
  method FindMetadataFiles(entries: seq<Option<WalkEntry>>) returns (files: seq<string>)
    ensures files == MetadataPaths(entries)
  {
    files := [];
    for i := 0 to |entries|
      invariant files == MetadataPaths(entries[..i])
    {
      assert entries[..i + 1][..i] == entries[..i];
      match entries[i] {
        case Some(e) =>
          if Contains(e.name, ".type.json") {
            files := files + [e.path];
          }
        case None =>
      }
    }
    assert entries[..|entries|] == entries;
  }

  /** Why gathering the definitions failed: a file could not be read, or a line of it is
      not a definition ("failed to parse <file>"). */
  datatype GatherError = ReadFailed(file: string) | BadLine(file: string)

  /** The definitions on the lines of one file, in order, or the first bad line. */
  function LineDefs(file: string, lines: seq<string>, parse: string -> Option<TypeDef>): Result<seq<TypeDef>, GatherError> {
    if lines == [] then Ok([])
    else
      match LineDefs(file, lines[..|lines| - 1], parse)
      case Err(e) => Err(e)
      case Ok(ds) =>
        match parse(Last(lines))
        case None => Err(BadLine(file))
        case Some(d) => Ok(ds + [d])
  }

  /** The definitions of one file: its lines' definitions, or why it failed. */
  function FileDefs(file: string, read: string -> Option<string>, parse: string -> Option<TypeDef>): Result<seq<TypeDef>, GatherError> {
    match read(file)
    case None => Err(ReadFailed(file))
    case Some(content) => LineDefs(file, StrLines(content), parse)
  }

  /** The definitions of all the files, in file and line order, or the first failure. */
  function AllDefs(files: seq<string>, read: string -> Option<string>, parse: string -> Option<TypeDef>): Result<seq<TypeDef>, GatherError> {
    if files == [] then Ok([])
    else
      match AllDefs(files[..|files| - 1], read, parse)
      case Err(e) => Err(e)
      case Ok(ds) =>
        match FileDefs(Last(files), read, parse)
        case Err(e) => Err(e)
        case Ok(fs) => Ok(ds + fs)
  }

  /** The map from name to definition, each later definition replacing the earlier one. */
  function Collect(defs: seq<TypeDef>): map<string, TypeDef> {
    if defs == [] then map[] else Collect(defs[..|defs| - 1])[Last(defs).ident := Last(defs)]
  }

  lemma CollectPush(defs: seq<TypeDef>, d: TypeDef)
    ensures Collect(defs + [d]) == Collect(defs)[d.ident := d]
  {
    assert (defs + [d])[..|defs|] == defs;
  }

  /** A name is kept exactly when some definition has it. */
  lemma {:induction false} CollectKeys(defs: seq<TypeDef>, id: string)
    ensures id in Collect(defs) <==> exists i :: 0 <= i < |defs| && defs[i].ident == id
    decreases |defs|
  {
    if defs != [] {
      var front := defs[..|defs| - 1];
      CollectKeys(front, id);
      if exists i :: 0 <= i < |front| && front[i].ident == id {
        var i :| 0 <= i < |front| && front[i].ident == id;
        assert defs[i] == front[i];
      }
    }
  }

  /** What is kept for a name is its last definition. */
  lemma {:induction false} CollectLastWins(defs: seq<TypeDef>, i: nat)
    requires i < |defs|
    requires forall j :: i < j < |defs| ==> defs[j].ident != defs[i].ident
    ensures defs[i].ident in Collect(defs) && Collect(defs)[defs[i].ident] == defs[i]
    decreases |defs|
  {
    var front := defs[..|defs| - 1];
    if i < |front| {
      forall j | i < j < |front| ensures front[j].ident != front[i].ident {
        assert front[j] == defs[j];
      }
      CollectLastWins(front, i);
      assert front[i] == defs[i];
    }
  }

  /** Once the gathering has failed, further files or lines do not change the failure. */
  lemma {:induction false} AllDefsErrStays(files: seq<string>, n: nat, read: string -> Option<string>,
                                           parse: string -> Option<TypeDef>)
    requires n <= |files| && AllDefs(files[..n], read, parse).Err?
    ensures AllDefs(files, read, parse) == AllDefs(files[..n], read, parse)
    decreases |files| - n
  {
    if n < |files| {
      assert files[..n + 1][..n] == files[..n];
      AllDefsErrStays(files, n + 1, read, parse);
    } else {
      assert files[..n] == files;
    }
  }

  lemma {:induction false} LineDefsErrStays(file: string, lines: seq<string>, n: nat, parse: string -> Option<TypeDef>)
    requires n <= |lines| && LineDefs(file, lines[..n], parse).Err?
    ensures LineDefs(file, lines, parse) == LineDefs(file, lines[..n], parse)
    decreases |lines| - n
  {
    if n < |lines| {
      assert lines[..n + 1][..n] == lines[..n];
      LineDefsErrStays(file, lines, n + 1, parse);
    } else {
      assert lines[..n] == lines;
    }
  }

  lemma AllDefsStep(files: seq<string>, i: nat, ds: seq<TypeDef>, read: string -> Option<string>,
                     parse: string -> Option<TypeDef>)
    requires i < |files| && AllDefs(files[..i], read, parse) == Ok(ds)
    ensures FileDefs(files[i], read, parse).Err? ==> AllDefs(files[..i + 1], read, parse) == Err(FileDefs(files[i], read, parse).error)
    ensures FileDefs(files[i], read, parse).Ok? ==> AllDefs(files[..i + 1], read, parse) == Ok(ds + FileDefs(files[i], read, parse).value)
  {
    assert files[..i + 1][..i] == files[..i];
  }

  lemma LineDefsStep(file: string, lines: seq<string>, k: nat, ds: seq<TypeDef>, parse: string -> Option<TypeDef>)
    requires k < |lines| && LineDefs(file, lines[..k], parse) == Ok(ds)
    ensures parse(lines[k]).None? ==> LineDefs(file, lines[..k + 1], parse) == Err(BadLine(file))
    ensures parse(lines[k]).Some? ==> LineDefs(file, lines[..k + 1], parse) == Ok(ds + [parse(lines[k]).value])
  {
    assert lines[..k + 1][..k] == lines[..k];
  }

  /** `parse_metadata_files`: every line of every file, in order, inserted into a map by
      name, so a later definition of a name replaces the earlier one; the first file that
      cannot be read or line that cannot be parsed ends the build. */
  method ParseMetadataFiles(files: seq<string>, read: string -> Option<string>, parse: string -> Option<TypeDef>)
    returns (r: Result<map<string, TypeDef>, GatherError>)
    ensures AllDefs(files, read, parse).Err? ==> r == Err(AllDefs(files, read, parse).error)
    ensures AllDefs(files, read, parse).Ok? ==> r == Ok(Collect(AllDefs(files, read, parse).value))
  {
    var types: map<string, TypeDef> := map[];
    ghost var defs: seq<TypeDef> := [];
    for i := 0 to |files|
      invariant AllDefs(files[..i], read, parse) == Ok(defs) && types == Collect(defs)
    {
      AllDefsStep(files, i, defs, read, parse);
      var content := read(files[i]);
      if content.None? {
        AllDefsErrStays(files, i + 1, read, parse);
        return Err(ReadFailed(files[i]));
      }
      var lines := StrLines(content.value);
      var fileTypes := ParseLines(files[i], lines, parse, types, defs);
      if fileTypes.Err? {
        assert lines[..|lines|] == lines;
        AllDefsErrStays(files, i + 1, read, parse);
        return Err(fileTypes.error);
      }
      types := fileTypes.value;
      assert lines[..|lines|] == lines;
      defs := defs + LineDefs(files[i], lines, parse).value;
    }
    assert files[..|files|] == files;
    return Ok(types);
  }

  /** The loop over one file's lines, inserting each definition into `types`, which holds
      the definitions `defs` gathered so far. */
  method ParseLines(file: string, lines: seq<string>, parse: string -> Option<TypeDef>,
                    types0: map<string, TypeDef>, ghost defs: seq<TypeDef>)
    returns (r: Result<map<string, TypeDef>, GatherError>)
    requires types0 == Collect(defs)
    ensures LineDefs(file, lines, parse).Err? ==> r == Err(LineDefs(file, lines, parse).error)
    ensures LineDefs(file, lines, parse).Ok? ==> r == Ok(Collect(defs + LineDefs(file, lines, parse).value))
  {
    var types := types0;
    ghost var fileDefs: seq<TypeDef> := [];
    assert defs + fileDefs == defs;
    for k := 0 to |lines|
      invariant LineDefs(file, lines[..k], parse) == Ok(fileDefs)
      invariant types == Collect(defs + fileDefs)
    {
      LineDefsStep(file, lines, k, fileDefs, parse);
      var d := parse(lines[k]);
      if d.None? {
        LineDefsErrStays(file, lines, k + 1, parse);
        return Err(BadLine(file));
      }
      CollectPush(defs + fileDefs, d.value);
      types := types[d.value.ident := d.value];
      assert defs + (fileDefs + [d.value]) == defs + fileDefs + [d.value];
      fileDefs := fileDefs + [d.value];
    }
    assert lines[..|lines|] == lines;
    return Ok(types);
  }
}
