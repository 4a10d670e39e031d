/** The two document schemas (`Properties`, `Reservations`) and their `serialize`
    projection. A schema is an ordered list of paths; the document store checks
    a new document against it, drops keys it does not declare, fills in
    defaults, and keeps the generated `_id` beside the fields. */
module Models {
  import opened Options

  /** A field value held by a document. */
  datatype Value = Str(s: string) | Bool(b: bool)

  /** The declared type of a schema path. */
  datatype Kind = StringKind | BooleanKind

  /** One schema path: its name, type, whether it is required, and its default. */
  datatype Path = Path(name: string, kind: Kind, required: bool, default: Option<Value>)

  type Schema = seq<Path>

  /** The fields of a document, by path name. */
  type Fields = map<string, Value>

  /** A stored document: the store-generated `_id` and the schema fields. */
  datatype Document = Document(id: string, fields: Fields)

  /** `PropertiesSchema`: optional `user`, required `room`, `description`,
      `contents`, and `unpacked` defaulting to `false`. */
  const PropertiesSchema: Schema := [
    Path("user", StringKind, false, None),
    Path("room", StringKind, true, None),
    Path("description", StringKind, true, None),
    Path("contents", StringKind, true, None),
    Path("unpacked", BooleanKind, false, Some(Bool(false)))
  ]

  /** `ReservationsSchema`, declared separately with the same paths. */
  const ReservationsSchema: Schema := [
    Path("user", StringKind, false, None),
    Path("room", StringKind, true, None),
    Path("description", StringKind, true, None),
    Path("contents", StringKind, true, None),
    Path("unpacked", BooleanKind, false, Some(Bool(false)))
  ]

  /** The names a schema declares. */
  function Names(schema: Schema): set<string> {
    set p | p in schema :: p.name
  }

  /** The names a schema marks as required. */
  function RequiredNames(schema: Schema): set<string> {
    set p | p in schema && p.required :: p.name
  }

  /** No name is declared twice. */
  predicate DistinctNames(schema: Schema) {
    forall i, j :: 0 <= i < j < |schema| ==> schema[i].name != schema[j].name
  }

  predicate HasKind(v: Value, k: Kind) {
    match k
    case StringKind => v.Str?
    case BooleanKind => v.Bool?
  }

  /** The store's required check: the key is there and, for a string path,
      the string is not empty. */
  predicate Supplied(p: Path, fields: Fields) {
    p.name in fields && !(p.kind == StringKind && fields[p.name] == Str(""))
  }

  /** A path fails validation when its value has the wrong type or when it is
      required and not supplied. */
  predicate PathFails(p: Path, fields: Fields) {
    || (p.name in fields && !HasKind(fields[p.name], p.kind))
    || (p.required && !Supplied(p, fields))
  }

  /** The names of all paths that fail; the store reports them together. */
  function Errors(schema: Schema, fields: Fields): (errs: set<string>)
    ensures errs <= Names(schema)
    ensures forall p :: p in schema && PathFails(p, fields) ==> p.name in errs
    ensures forall n :: n in errs ==> exists p :: p in schema && p.name == n && PathFails(p, fields)
  {
    set p | p in schema && PathFails(p, fields) :: p.name
  }

  /** The default declared for `name`, if the schema declares one. */
  function DefaultOf(schema: Schema, name: string): (d: Option<Value>)
    ensures d.Some? ==> exists p :: p in schema && p.name == name && p.default == d
  {
    if |schema| == 0 then None
    else if schema[0].name == name then schema[0].default
    else DefaultOf(schema[1..], name)
  }

  /** An undeclared name has no default. */
  lemma {:induction false} DefaultOfUndeclared(schema: Schema, name: string)
    requires forall p :: p in schema ==> p.name != name
    ensures DefaultOf(schema, name).None?
  {
    if |schema| > 0 {
      assert schema[0] in schema;
      forall p | p in schema[1..] ensures p.name != name {
        assert p in schema;
      }
      DefaultOfUndeclared(schema[1..], name);
    }
  }

  /** The default of a name is the one its first declaration gives. */
  lemma {:induction false} DefaultOfFirst(schema: Schema, name: string, i: nat)
    requires i < |schema| && schema[i].name == name
    requires forall j :: 0 <= j < i ==> schema[j].name != name
    ensures DefaultOf(schema, name) == schema[i].default
  {
    if i > 0 {
      var tail := schema[1..];
      assert schema[0].name != name;
      forall j | 0 <= j < i - 1 ensures tail[j].name != name {
        assert tail[j] == schema[j + 1];
      }
      DefaultOfFirst(tail, name, i - 1);
    }
  }

  /** When no name is declared twice, the default of a name is the one of its
      only declaration. */
  lemma DefaultOfDistinct(schema: Schema, p: Path)
    requires DistinctNames(schema) && p in schema
    ensures DefaultOf(schema, p.name) == p.default
  {
    var i :| 0 <= i < |schema| && schema[i] == p;
    DefaultOfFirst(schema, p.name, i);
  }

  /** The fields a new document keeps: declared keys that were supplied, plus the
      defaults of declared keys that were not. Undeclared keys are dropped. */
  function Populate(schema: Schema, fields: Fields): (r: Fields)
    ensures r.Keys <= Names(schema)
    ensures forall k :: k in fields && k in Names(schema) ==> k in r && r[k] == fields[k]
    ensures forall k :: k in Names(schema) && k !in fields && DefaultOf(schema, k).Some? ==>
      k in r && r[k] == DefaultOf(schema, k).value
    ensures forall k :: k !in fields && DefaultOf(schema, k).None? ==> k !in r
  {
    map k | k in Names(schema) && (k in fields || DefaultOf(schema, k).Some?) ::
      if k in fields then fields[k] else DefaultOf(schema, k).value
  }

  /** Creating a document: rejected with the failing paths, or stored under `id`. */
  function Create(schema: Schema, id: string, fields: Fields): (r: Result<Document, set<string>>)
    ensures r.Ok? <==> forall i :: 0 <= i < |schema| ==> !PathFails(schema[i], fields)
    ensures r.Ok? ==> r.value.id == id && r.value.fields.Keys <= Names(schema)
    ensures r.Err? ==> r.error != {} && r.error <= Names(schema)
    ensures r.Err? ==> forall n :: n in r.error <==>
      exists p :: p in schema && p.name == n && PathFails(p, fields)
  {
    var errs := Errors(schema, fields);
    if errs != {} then
      Err(errs)
    else
      assert forall i :: 0 <= i < |schema| ==> !PathFails(schema[i], fields) by {
        forall i | 0 <= i < |schema| ensures !PathFails(schema[i], fields) {
          assert schema[i] in schema;
        }
      }
      Ok(Document(id, Populate(schema, fields)))
  }

  /** No path of the schema is declared twice. */
  lemma PropertiesDistinctNames()
    ensures DistinctNames(PropertiesSchema)
    ensures DistinctNames(ReservationsSchema)
  {
  }

  /** The two schemas declare exactly the same paths, so every write is treated alike. */
  lemma SchemasIdentical(id: string, fields: Fields)
    ensures PropertiesSchema == ReservationsSchema
    ensures Create(PropertiesSchema, id, fields) == Create(ReservationsSchema, id, fields)
  {
  }

  /** `room`, `description` and `contents` are required; `user` and `unpacked` are not. */
  lemma RequiredPaths()
    ensures RequiredNames(PropertiesSchema) == {"room", "description", "contents"}
    ensures "user" !in RequiredNames(PropertiesSchema)
    ensures "unpacked" !in RequiredNames(PropertiesSchema)
  {
    var s := PropertiesSchema;
    assert s[1] in s && s[2] in s && s[3] in s;
  }

  /** A document that leaves out a required string, or gives it as "", is refused
      and the refusal names that path. */
  lemma MissingRequiredRejected(id: string, fields: Fields, name: string)
    requires name in {"room", "description", "contents"}
    requires name !in fields || fields[name] == Str("")
    ensures Create(PropertiesSchema, id, fields).Err?
    ensures name in Create(PropertiesSchema, id, fields).error
  {
    var s := PropertiesSchema;
    var i := if name == "room" then 1 else if name == "description" then 2 else 3;
    assert s[i] in s && s[i].name == name && PathFails(s[i], fields);
  }

  /** The documents the schema accepts: the three required strings are non-empty
      strings, and the optional paths, when present, have their declared types. */
  predicate Acceptable(fields: Fields) {
    && (forall n :: n in ["room", "description", "contents"] ==>
          n in fields && fields[n].Str? && fields[n] != Str(""))
    && ("user" in fields ==> fields["user"].Str?)
    && ("unpacked" in fields ==> fields["unpacked"].Bool?)
  }

  /** Creation succeeds exactly for acceptable documents. */
  lemma CreateSucceedsIff(id: string, fields: Fields)
    ensures Create(PropertiesSchema, id, fields).Ok? <==> Acceptable(fields)
  {
    var s := PropertiesSchema;
    if Acceptable(fields) {
      forall i | 0 <= i < |s| ensures !PathFails(s[i], fields) {
        if i == 1 { assert "room" in ["room", "description", "contents"]; }
        if i == 2 { assert "description" in ["room", "description", "contents"]; }
        if i == 3 { assert "contents" in ["room", "description", "contents"]; }
      }
    } else {
      if "user" in fields && !fields["user"].Str? {
        assert PathFails(s[0], fields);
      } else if "unpacked" in fields && !fields["unpacked"].Bool? {
        assert PathFails(s[4], fields);
      } else {
        var n :| n in ["room", "description", "contents"] &&
          !(n in fields && fields[n].Str? && fields[n] != Str(""));
        var i := if n == "room" then 1 else if n == "description" then 2 else 3;
        assert PathFails(s[i], fields);
      }
    }
  }

  /** The paths `PropertiesSchema` declares. */
  lemma PropertiesNames()
    ensures Names(PropertiesSchema) == {"user", "room", "description", "contents", "unpacked"}
  {
    var s := PropertiesSchema;
    assert s[0] in s && s[1] in s && s[2] in s && s[3] in s && s[4] in s;
  }

  /** An acceptable document is stored under the given id, keeps every supplied
      declared field verbatim, and keeps nothing undeclared. */
  lemma CreatedKeepsSupplied(id: string, fields: Fields)
    requires Acceptable(fields)
    ensures Create(PropertiesSchema, id, fields).Ok?
    ensures var d := Create(PropertiesSchema, id, fields).value;
      && d.id == id
      && (forall k :: k in fields && k in Names(PropertiesSchema) ==> k in d.fields && d.fields[k] == fields[k])
      && (forall k :: k in d.fields ==> k in Names(PropertiesSchema))
  {
    CreateSucceedsIff(id, fields);
  }

  /** An acceptable document gets `unpacked == false` when none was supplied,
      and no `user` when none was supplied. */
  lemma CreatedDefaults(id: string, fields: Fields)
    requires Acceptable(fields)
    ensures Create(PropertiesSchema, id, fields).Ok?
    ensures var d := Create(PropertiesSchema, id, fields).value;
      && ("unpacked" !in fields ==> "unpacked" in d.fields && d.fields["unpacked"] == Bool(false))
      && ("user" !in fields ==> "user" !in d.fields)
  {
    var s := PropertiesSchema;
    CreateSucceedsIff(id, fields);
    PropertiesDefaults();
    assert s[4] in s && s[4].name == "unpacked";
    assert "unpacked" in Names(s);
  }

  /** Only `unpacked` has a default in `PropertiesSchema`, and it is `false`. */
  lemma PropertiesDefaults()
    ensures DefaultOf(PropertiesSchema, "unpacked") == Some(Bool(false))
    ensures DefaultOf(PropertiesSchema, "user") == None
  {
    var s := PropertiesSchema;
    assert s[1..][1..][1..][1..][0].name == "unpacked";
    assert "user" != "unpacked" && "room" != "unpacked" && "description" != "unpacked";
    assert "contents"[0] != "unpacked"[0];
    assert DefaultOf(s[1..][1..][1..][1..], "unpacked") == Some(Bool(false));
    assert DefaultOf(s[1..][1..][1..], "unpacked") == Some(Bool(false));
    assert DefaultOf(s[1..][1..], "unpacked") == Some(Bool(false));
    assert DefaultOf(s[1..], "unpacked") == Some(Bool(false));
  }

  /** A document whose three required strings are present and non-empty
      supplies every required path. */
  lemma RequiredSupplied(fields: Fields)
    requires "room" in fields && fields["room"] != Str("")
    requires "description" in fields && fields["description"] != Str("")
    requires "contents" in fields && fields["contents"] != Str("")
    ensures forall p :: p in PropertiesSchema && p.required ==> Supplied(p, fields)
  {
    var s := PropertiesSchema;
    forall p | p in s && p.required
      ensures Supplied(p, fields)
    {
      assert p == s[1] || p == s[2] || p == s[3];
    }
  }

  /** The keys of the public shape. */
  const PublicKeys: set<string> := {"user", "room", "description", "contents", "id", "unpacked"}

  /** The keys `serialize` copies from the document unchanged. */
  const CopiedKeys: set<string> := {"user", "room", "description", "contents", "unpacked"}

  /** The public shape of a document; `None` is an `undefined` value. */
  type Public = map<string, Option<Value>>

  /** `serialize`: the public shape has exactly the public keys, `id` is the
      document's `_id`, and the other five are the document's own values. */
  function Serialize(d: Document): (r: Public)
    ensures r.Keys == PublicKeys
    ensures r["id"] == Some(Str(d.id))
    ensures forall k :: k in CopiedKeys ==> r[k] == Get(d.fields, k)
  {
    map[
      "user" := Get(d.fields, "user"),
      "room" := Get(d.fields, "room"),
      "description" := Get(d.fields, "description"),
      "contents" := Get(d.fields, "contents"),
      "id" := Some(Str(d.id)),
      "unpacked" := Get(d.fields, "unpacked")
    ]
  }

  /** Nothing else in a document reaches its public shape: two documents that
      agree on `_id` and on the copied keys serialize identically. */
  lemma SerializeReadsOnlyPublic(d1: Document, d2: Document)
    requires d1.id == d2.id
    requires forall k :: k in CopiedKeys ==> Get(d1.fields, k) == Get(d2.fields, k)
    ensures Serialize(d1) == Serialize(d2)
  {
  }

  /** The public shape determines the `_id` and the copied fields. */
  lemma SerializeInjectiveOnPublic(d1: Document, d2: Document)
    requires Serialize(d1) == Serialize(d2)
    ensures d1.id == d2.id
    ensures forall k :: k in CopiedKeys ==> Get(d1.fields, k) == Get(d2.fields, k)
  {
    assert Serialize(d1)["id"] == Serialize(d2)["id"];
  }

  /** The GET list handlers: one public shape per stored document, in store order. */
  method ListResponse(docs: seq<Document>) returns (body: seq<Public>)
    ensures |body| == |docs|
    ensures forall i :: 0 <= i < |docs| ==> body[i].Keys == PublicKeys
    ensures forall i :: 0 <= i < |docs| ==> body[i]["id"] == Some(Str(docs[i].id))
    ensures forall i, k :: 0 <= i < |docs| && k in CopiedKeys ==> body[i][k] == Get(docs[i].fields, k)
  {
    body := [];
    var i := 0;
    while i < |docs|
      invariant 0 <= i <= |docs|
      invariant |body| == i
      invariant forall j :: 0 <= j < i ==> body[j] == Serialize(docs[j])
    {
      body := body + [Serialize(docs[i])];
      i := i + 1;
    }
  }
}
