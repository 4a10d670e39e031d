/** How the router's `POST /` validation and the document schemas fit together:
    what the router lets through is what the schemas require, and what the
    `Properties` schema and its `serialize` would make of a body that passes.
    The router hands the body to a store object it never defines, so this is a
    statement about the schemas, not about what the service stores or lists. */
module Agreement {
  import opened Options
  import opened Models
  import opened Router

  /** A JSON body as document fields, every value a string: the argument the
      handler passes on to the store. */
  function FromBody(body: Body): (fields: Fields)
    ensures fields.Keys == body.Keys
    ensures forall k :: k in body ==> fields[k] == Str(body[k])
  {
    map k | k in body :: Str(body[k])
  }

  /** The router's required keys are the schemas' required paths. */
  lemma RouterRequiredIsSchemaRequired()
    ensures (set f | f in PostRules.required) == RequiredNames(PropertiesSchema)
    ensures (set f | f in PostRules.required) == RequiredNames(ReservationsSchema)
  {
    RequiredPaths();
    var r := PostRules.required;
    assert r[0] in r && r[1] in r && r[2] in r;
  }

  /** A value that is non-blank after trimming is not the empty string. */
  lemma FilledIsNonEmpty(body: Body, f: string)
    requires Filled(body, f)
    ensures body[f] != ""
  {
  }

  /** Anything `POST /` accepts supplies every required path of both schemas. */
  lemma AcceptedSuppliesRequired(body: Body)
    requires ValidatePost(body).Pass?
    ensures forall p :: p in PropertiesSchema && p.required ==> Supplied(p, FromBody(body))
    ensures forall p :: p in ReservationsSchema && p.required ==> Supplied(p, FromBody(body))
  {
    var fields := FromBody(body);
    FilledIsNonEmpty(body, "room");
    FilledIsNonEmpty(body, "description");
    FilledIsNonEmpty(body, "contents");
    RequiredSupplied(fields);
    assert ReservationsSchema == PropertiesSchema;
  }

  /** A body whose three fields are filled, without an `unpacked` key, meets
      the schema's conditions for creation. */
  lemma FilledIsAcceptable(body: Body)
    requires Filled(body, "room") && Filled(body, "description") && Filled(body, "contents")
    requires "unpacked" !in body
    ensures Acceptable(FromBody(body))
  {
    var fields := FromBody(body);
    FilledIsNonEmpty(body, "room");
    FilledIsNonEmpty(body, "description");
    FilledIsNonEmpty(body, "contents");
    forall n | n in ["room", "description", "contents"]
      ensures n in fields && fields[n].Str? && fields[n] != Str("")
    {
      assert n in body;
    }
  }

  /** A body the router accepts, without an `unpacked` key, would be created
      under the `Properties` schema, and its public shape would show `user`,
      `room`, `description` and `contents` as sent, `unpacked` as `false`, and
      the given id. */
  lemma {:induction false} AcceptedBodyRoundTrip(body: Body, id: string)
    requires ValidatePost(body).Pass?
    requires "unpacked" !in body
    ensures Create(PropertiesSchema, id, FromBody(body)).Ok?
    ensures
      var pub := Serialize(Create(PropertiesSchema, id, FromBody(body)).value);
      && pub["id"] == Some(Str(id))
      && pub["room"] == Some(Str(body["room"]))
      && pub["description"] == Some(Str(body["description"]))
      && pub["contents"] == Some(Str(body["contents"]))
      && pub["user"] == (if "user" in body then Some(Str(body["user"])) else None)
      && pub["unpacked"] == Some(Bool(false))
  {
    var fields := FromBody(body);
    FilledIsAcceptable(body);
    CreatedKeepsSupplied(id, fields);
    CreatedDefaults(id, fields);
    PropertiesNames();
    var d := Create(PropertiesSchema, id, fields).value;
    assert Get(d.fields, "room") == Some(Str(body["room"]));
    assert Get(d.fields, "description") == Some(Str(body["description"]));
    assert Get(d.fields, "contents") == Some(Str(body["contents"]));
    assert Get(d.fields, "user") == (if "user" in body then Some(Str(body["user"])) else None);
    assert Get(d.fields, "unpacked") == Some(Bool(false));
  }

  /** A body missing one of the three keys is refused by the router, and the
      schema would refuse it too, naming the same field. */
  lemma {:induction false} MissingRefusedByBoth(body: Body, i: nat, id: string)
    requires i < 3 && PostRules.required[i] !in body
    requires forall j :: 0 <= j < i ==> PostRules.required[j] in body
    ensures ValidatePost(body) == Invalid(422, ValidationError, MissingField, PostRules.required[i])
    ensures Create(PropertiesSchema, id, FromBody(body)).Err?
    ensures PostRules.required[i] in Create(PropertiesSchema, id, FromBody(body)).error
  {
    MissingFieldWins(PostRules, body, i);
    MissingRequiredRejected(id, FromBody(body), PostRules.required[i]);
  }
}
