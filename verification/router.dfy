/** Request validation of the dibs router: the checks `POST /` makes before
    storing a body, the checks `PUT /:id` makes before updating, and the
    messages they answer with. Bodies are JSON objects with string values. */
module Router {
  import opened Options
  import opened Seqs
  import opened Text

  /** A parsed JSON request body. */
  type Body = map<string, string>

  /** What validation decides: let the request through to the store, refuse it
      with the structured 422 error, or refuse it with a plain-text 400. */
  datatype Verdict =
    | Pass
    | Invalid(code: nat, reason: string, message: string, location: string)
    | BadRequest(message: string)

  /** The HTTP status of a refusal. */
  function Status(v: Verdict): (code: nat)
    requires !v.Pass?
    ensures v.BadRequest? ==> code == 400
  {
    match v
    case Invalid(code, _, _, _) => code
    case BadRequest(_) => 400
  }

  const ValidationError := "ValidationError"
  const MissingField := "Missing field"

  /** The too-short message, with the bound written in decimal. */
  function AtLeast(min: nat): string {
    "Must be at least " + NatToString(min) + " characters long"
  }

  /** The too-long message, with the bound written in decimal. */
  function AtMost(max: nat): string {
    "Must be at most " + NatToString(max) + " characters long"
  }

  /** Between the too-short message's fixed prefix and suffix stand the
      decimal digits of the bound, and they read back as the bound. */
  lemma AtLeastReadsBack(min: nat)
    ensures var r := AtLeast(min);
      && |r| > 33 && r[..17] == "Must be at least " && r[|r| - 16..] == " characters long"
      && Digits(r[17..|r| - 16]) && ParseDecimal(r[17..|r| - 16]) == min
  {
    var r := AtLeast(min);
    ParseNatToString(min);
    assert r[17..|r| - 16] == NatToString(min);
  }

  /** Between the too-long message's fixed prefix and suffix stand the
      decimal digits of the bound, and they read back as the bound. */
  lemma AtMostReadsBack(max: nat)
    ensures var r := AtMost(max);
      && |r| > 32 && r[..16] == "Must be at most " && r[|r| - 16..] == " characters long"
      && Digits(r[16..|r| - 16]) && ParseDecimal(r[16..|r| - 16]) == max
  {
    var r := AtMost(max);
    ParseNatToString(max);
    assert r[16..|r| - 16] == NatToString(max);
  }

  /** The three kinds of 422 message never coincide. */
  lemma MessagesDistinct(m: nat, n: nat)
    ensures AtLeast(m) != AtMost(n)
    ensures AtLeast(m) != MissingField && AtMost(n) != MissingField
  {
    assert AtLeast(m)[11] == 'l' && AtMost(n)[11] == 'm';
    assert AtLeast(m)[1] == 'u' && MissingField[1] == 'i';
  }

  /** The too-short message names its bound: different bounds, different messages. */
  lemma AtLeastDeterminesBound(m: nat, n: nat)
    requires AtLeast(m) == AtLeast(n)
    ensures m == n
  {
    var prefix := "Must be at least ";
    var sm := NatToString(m);
    var sn := NatToString(n);
    assert |sm| == |sn| by {
      assert |AtLeast(m)| == |prefix| + |sm| + 16;
      assert |AtLeast(n)| == |prefix| + |sn| + 16;
    }
    assert sm == AtLeast(m)[|prefix|..|prefix| + |sm|];
    assert sn == AtLeast(n)[|prefix|..|prefix| + |sn|];
    NatToStringInjective(m, n);
  }

  /** The optional length bounds of a sized field. */
  datatype Bounds = Bounds(min: Option<nat>, max: Option<nat>)

  /** An entry of `sizedFields`. */
  datatype SizedField = SizedField(name: string, bounds: Bounds)

  /** The validation rules of a create route: the required keys in declaration
      order and the sized fields in declaration order. */
  datatype CreateRules = CreateRules(required: seq<string>, sized: seq<SizedField>)

  /** A name `Object.keys` lists ahead of the others whatever the declaration
      order: a non-empty run of decimal digits (a superset of the array indices). */
  predicate IntegerLike(name: string) {
    |name| > 0 && Digits(name)
  }

  /** The property names every object inherits from `Object.prototype`. The
      `in` operator finds them on any body, so a required key of one of these
      names is never reported missing. */
  const InheritedNames: set<string> := {
    "constructor", "__proto__", "__defineGetter__", "__defineSetter__",
    "__lookupGetter__", "__lookupSetter__", "hasOwnProperty", "isPrototypeOf",
    "propertyIsEnumerable", "toLocaleString", "toString", "valueOf"
  }

  /** What the handler's code relies on of its rules, so that the model and the
      code agree: every sized field is also required (otherwise `trim` would be
      called on a missing value), no name is "" (the code tests names for
      truthiness), names are not repeated, no name is integer-like (so
      `Object.keys` keeps declaration order), no name is inherited from
      `Object.prototype` (so `in` answers for the body's own keys only), and
      no bound exceeds `MaxExactBound` (so a template literal writes it in
      plain decimal digits). */
  predicate WellFormed(rules: CreateRules) {
    && (forall i :: 0 <= i < |rules.sized| ==> rules.sized[i].name in rules.required)
    && (forall i :: 0 <= i < |rules.required| ==>
          rules.required[i] != "" && !IntegerLike(rules.required[i]))
    && (forall n :: n in InheritedNames ==> n !in rules.required)
    && (forall i, j :: 0 <= i < j < |rules.required| ==> rules.required[i] != rules.required[j])
    && (forall i, j :: 0 <= i < j < |rules.sized| ==> rules.sized[i].name != rules.sized[j].name)
    && (forall i :: 0 <= i < |rules.sized| ==> BoundsExact(rules.sized[i].bounds))
  }

  /** 2^53: up to here every integer is a JavaScript number, and its string
      form is exactly its decimal digits. Above it a number may be written
      with rounded digits, and from 10^21 on in exponent form. */
  const MaxExactBound: nat := 9007199254740992

  /** Both bounds, when present, are written exactly by a template literal. */
  predicate BoundsExact(b: Bounds) {
    && (b.min.Some? ==> b.min.value <= MaxExactBound)
    && (b.max.Some? ==> b.max.value <= MaxExactBound)
  }

  /** A rule set requiring an inherited name is not well-formed: the code would
      find `toString` on an empty body, while the model reports it missing. */
  lemma InheritedNameNotWellFormed(name: string)
    requires name in InheritedNames
    ensures !WellFormed(CreateRules([name], []))
  {
    assert CreateRules([name], []).required[0] == name;
  }

  /** A rule set with a bound above 2^53 is not well-formed: a template literal
      could write that bound with rounded digits. */
  lemma LargeBoundNotWellFormed(name: string, bound: nat)
    requires bound > MaxExactBound
    ensures !WellFormed(CreateRules([name], [SizedField(name, Bounds(Some(bound), None))]))
    ensures !WellFormed(CreateRules([name], [SizedField(name, Bounds(None, Some(bound)))]))
  {
    var lo := CreateRules([name], [SizedField(name, Bounds(Some(bound), None))]);
    assert !BoundsExact(lo.sized[0].bounds);
    var hi := CreateRules([name], [SizedField(name, Bounds(None, Some(bound)))]);
    assert !BoundsExact(hi.sized[0].bounds);
  }

  /** The rule sets on which the handler's code behaves as the model says. */
  type Rules = r: CreateRules | WellFormed(r) witness CreateRules([], [])

  /** The rules of `POST /`: `room`, `description`, `contents`, each at least
      one character long after trimming and with no upper bound. */
  const PostRules: Rules :=
    assert WellFormed(PostRulesValue()) by { PostRulesWellFormed(); }
    PostRulesValue()

  /** The `POST /` rules before they are known to be well-formed. */
  function PostRulesValue(): CreateRules {
    CreateRules(
      ["room", "description", "contents"],
      [ SizedField("room", Bounds(Some(1), None)),
        SizedField("description", Bounds(Some(1), None)),
        SizedField("contents", Bounds(Some(1), None)) ])
  }

  /** The `POST /` rules meet every condition of `WellFormed`. */
  lemma PostRulesWellFormed()
    ensures WellFormed(PostRulesValue())
  {
    PostSizedRequired();
    PostNamesPlain();
    PostNamesOwn();
    PostNamesDistinct();
    PostBoundsExact();
  }

  /** The `POST /` bounds are written exactly. */
  lemma PostBoundsExact()
    ensures var r := PostRulesValue();
      forall i :: 0 <= i < |r.sized| ==> BoundsExact(r.sized[i].bounds)
  {
  }

  /** Every `POST /` sized field is a required one. */
  lemma PostSizedRequired()
    ensures var r := PostRulesValue();
      forall i :: 0 <= i < |r.sized| ==> r.sized[i].name in r.required
  {
    var r := PostRulesValue();
    assert r.sized[0].name == r.required[0];
    assert r.sized[1].name == r.required[1];
    assert r.sized[2].name == r.required[2];
  }

  /** No `POST /` field name is empty or made only of digits. */
  lemma PostNamesPlain()
    ensures var r := PostRulesValue();
      forall i :: 0 <= i < |r.required| ==> r.required[i] != "" && !IntegerLike(r.required[i])
  {
    var r := PostRulesValue();
    assert !IsDigit(r.required[0][0]) && !IsDigit(r.required[1][0]) && !IsDigit(r.required[2][0]);
  }

  /** The `POST /` field names are pairwise different. */
  lemma PostNamesDistinct()
    ensures var r := PostRulesValue();
      && (forall i, j :: 0 <= i < j < |r.required| ==> r.required[i] != r.required[j])
      && (forall i, j :: 0 <= i < j < |r.sized| ==> r.sized[i].name != r.sized[j].name)
  {
  }

  /** None of the `POST /` field names is inherited from `Object.prototype`. */
  lemma PostNamesOwn()
    ensures forall n :: n in InheritedNames ==> n !in PostRulesValue().required
  {
    assert "room" !in InheritedNames;
    assert "description" !in InheritedNames;
    assert "contents" !in InheritedNames;
  }

  /** The key test of the presence check: `!(field in req.body)`. */
  function Absent(body: Body): string -> bool {
    f => f !in body
  }

  /** The trimmed length of the value of a field. */
  function TrimmedLength(body: Body, f: string): nat
    requires f in body
  {
    |Trim(body[f])|
  }

  /** A field with a lower bound whose trimmed value is shorter than it. The
      membership test keeps the predicate total; for well-formed rules it is
      only applied once every sized field is known present. */
  function TooShort(body: Body): SizedField -> bool {
    (sf: SizedField) => sf.bounds.min.Some? && sf.name in body && TrimmedLength(body, sf.name) < sf.bounds.min.value
  }

  /** A field with an upper bound whose trimmed value is longer than it. */
  function TooLong(body: Body): SizedField -> bool {
    (sf: SizedField) => sf.bounds.max.Some? && sf.name in body && TrimmedLength(body, sf.name) > sf.bounds.max.value
  }

  /** No sized field satisfies `p`. */
  predicate NoneMatch(sized: seq<SizedField>, p: SizedField -> bool) {
    forall i :: 0 <= i < |sized| ==> !p(sized[i])
  }

  /** Every required key is present. */
  predicate AllPresent(required: seq<string>, body: Body) {
    forall i :: 0 <= i < |required| ==> required[i] in body
  }

  /** Create-route validation: first missing key, else first too-short field,
      else first too-long field, else pass. */
  function ValidateCreate(rules: Rules, body: Body): (v: Verdict)
    ensures v.Pass? || v.Invalid?
    ensures v.Invalid? ==> v.code == 422 && v.reason == ValidationError
    ensures v.Invalid? && v.message == MissingField ==>
      v.location in rules.required && v.location !in body
    ensures v.Pass? <==>
      && AllPresent(rules.required, body)
      && NoneMatch(rules.sized, TooShort(body))
      && NoneMatch(rules.sized, TooLong(body))
  {
    match FirstIndex(rules.required, Absent(body))
    case Some(i) =>
      Invalid(422, ValidationError, MissingField, rules.required[i])
    case None =>
      var small := FirstIndex(rules.sized, TooShort(body));
      var large := FirstIndex(rules.sized, TooLong(body));
      if small.Some? then
        var sf := rules.sized[small.value];
        Invalid(422, ValidationError, AtLeast(sf.bounds.min.value), sf.name)
      else if large.Some? then
        var sf := rules.sized[large.value];
        Invalid(422, ValidationError, AtMost(sf.bounds.max.value), sf.name)
      else
        Pass
  }

  /** A value passes the `POST /` length check when it is non-empty after trimming. */
  predicate Filled(body: Body, f: string) {
    f in body && |Trim(body[f])| >= 1
  }

  /** `POST /` validation. It accepts exactly the bodies in which `room`,
      `description` and `contents` are present and non-blank. */
  function ValidatePost(body: Body): (v: Verdict)
    ensures v.Pass? <==> Filled(body, "room") && Filled(body, "description") && Filled(body, "contents")
    ensures v.Invalid? ==> v.code == 422 && v.reason == ValidationError
  {
    PostPassIff(body);
    ValidateCreate(PostRules, body)
  }

  /** The `POST /` rules pass a body exactly when the three fields are filled. */
  lemma PostPassIff(body: Body)
    ensures ValidateCreate(PostRules, body).Pass? <==>
      Filled(body, "room") && Filled(body, "description") && Filled(body, "contents")
  {
    PostPresent(body);
    PostNoUpperBound(body);
    if AllPresent(PostRules.required, body) {
      PostLowerBound(body);
    }
  }

  /** The `POST /` required keys are `room`, `description`, `contents`. */
  lemma PostPresent(body: Body)
    ensures AllPresent(PostRules.required, body) <==>
      "room" in body && "description" in body && "contents" in body
  {
    var r := PostRules.required;
    assert r[0] == "room" && r[1] == "description" && r[2] == "contents";
  }

  /** No `POST /` sized field has an upper bound, so none is ever too long. */
  lemma PostNoUpperBound(body: Body)
    ensures NoneMatch(PostRules.sized, TooLong(body))
  {
    var s := PostRules.sized;
    forall i | 0 <= i < |s| ensures !TooLong(body)(s[i]) {
      assert s[i].bounds.max == None;
    }
  }

  /** With the keys present, no `POST /` field is too short exactly when all three are filled. */
  lemma PostLowerBound(body: Body)
    requires "room" in body && "description" in body && "contents" in body
    ensures NoneMatch(PostRules.sized, TooShort(body)) <==>
      Filled(body, "room") && Filled(body, "description") && Filled(body, "contents")
  {
    var s := PostRules.sized;
    var p := TooShort(body);
    assert |s| == 3;
    assert NoneMatch(s, p) <==> !p(s[0]) && !p(s[1]) && !p(s[2]);
    assert s[0] == SizedField("room", Bounds(Some(1), None));
    assert s[1] == SizedField("description", Bounds(Some(1), None));
    assert s[2] == SizedField("contents", Bounds(Some(1), None));
    MinOneTooShortIffUnfilled(body, "room");
    MinOneTooShortIffUnfilled(body, "description");
    MinOneTooShortIffUnfilled(body, "contents");
  }

  /** Under a lower bound of 1, a present field is too short exactly when it is not filled. */
  lemma MinOneTooShortIffUnfilled(body: Body, f: string)
    requires f in body
    ensures TooShort(body)(SizedField(f, Bounds(Some(1), None))) <==> !Filled(body, f)
  {
  }

  /** First missing field wins: the 422 names the first required key, in
      declaration order, that the body lacks. */
  lemma {:induction false} MissingFieldWins(rules: Rules, body: Body, i: nat)
    requires i < |rules.required| && rules.required[i] !in body
    requires forall j :: 0 <= j < i ==> rules.required[j] in body
    ensures ValidateCreate(rules, body) == Invalid(422, ValidationError, MissingField, rules.required[i])
  {
    FirstIndexIsFirst(rules.required, Absent(body), i);
  }

  /** Presence before length: a length message is only ever given when every
      required key is present, so a missing key always takes priority. */
  lemma PresenceBeforeLength(rules: Rules, body: Body)
    ensures ValidateCreate(rules, body).Invalid? && !AllPresent(rules.required, body) ==>
      ValidateCreate(rules, body).message == MissingField
    ensures ValidateCreate(rules, body).Invalid? && ValidateCreate(rules, body).message != MissingField ==>
      AllPresent(rules.required, body)
  {
    if !AllPresent(rules.required, body) {
      FirstIndexNone(rules.required, Absent(body));
    }
  }

  /** Too short beats too long: when every required key is present and some field
      is too short, the 422 names the first too-short field and its lower bound,
      whatever too-long fields there are. */
  lemma {:induction false} TooShortBeatsTooLong(rules: Rules, body: Body, i: nat)
    requires AllPresent(rules.required, body)
    requires i < |rules.sized| && TooShort(body)(rules.sized[i])
    requires forall j :: 0 <= j < i ==> !TooShort(body)(rules.sized[j])
    ensures ValidateCreate(rules, body) ==
      Invalid(422, ValidationError, AtLeast(rules.sized[i].bounds.min.value), rules.sized[i].name)
  {
    FirstIndexNone(rules.required, Absent(body));
    FirstIndexIsFirst(rules.sized, TooShort(body), i);
  }

  /** With every key present and no field too short, the first too-long field
      in declaration order is reported with its upper bound. */
  lemma {:induction false} TooLongReported(rules: Rules, body: Body, i: nat)
    requires AllPresent(rules.required, body)
    requires NoneMatch(rules.sized, TooShort(body))
    requires i < |rules.sized| && TooLong(body)(rules.sized[i])
    requires forall j :: 0 <= j < i ==> !TooLong(body)(rules.sized[j])
    ensures ValidateCreate(rules, body) ==
      Invalid(422, ValidationError, AtMost(rules.sized[i].bounds.max.value), rules.sized[i].name)
  {
    FirstIndexNone(rules.required, Absent(body));
    FirstIndexNone(rules.sized, TooShort(body));
    FirstIndexIsFirst(rules.sized, TooLong(body), i);
  }

  /** A field with lower bound one is too short exactly when its value is blank. */
  lemma MinOneTooShortIffBlank(body: Body, f: string)
    requires f in body
    ensures TooShort(body)(SizedField(f, Bounds(Some(1), None))) <==> Blank(body[f])
  {
    TrimEmptyIffBlank(body[f]);
  }

  /** Presence means the key exists: with all three keys present, a blank value
      is never reported missing; the first blank one gets the too-short message
      `Must be at least 1 characters long`. */
  lemma {:induction false} BlankValueTooShort(body: Body, i: nat)
    requires AllPresent(PostRules.required, body)
    requires i < 3 && Blank(body[PostRules.required[i]])
    requires forall j :: 0 <= j < i ==> !Blank(body[PostRules.required[j]])
    ensures ValidatePost(body) ==
      Invalid(422, ValidationError, "Must be at least 1 characters long", PostRules.required[i])
  {
    var r := PostRules;
    forall j | 0 <= j < 3
      ensures r.sized[j] == SizedField(r.required[j], Bounds(Some(1), None))
      ensures TooShort(body)(r.sized[j]) <==> Blank(body[r.required[j]])
    {
      MinOneTooShortIffBlank(body, r.required[j]);
    }
    TooShortBeatsTooLong(r, body, i);
    AtLeastOne();
  }

  /** The message the `POST /` rules give for a blank value. */
  lemma AtLeastOne()
    ensures AtLeast(1) == "Must be at least 1 characters long"
  {
    assert NatToString(1) == "1";
  }

  /** With the `POST /` rules every refusal is either a missing field or the
      at-least-one-character message. */
  lemma PostRefusalMessages(body: Body)
    ensures ValidatePost(body).Invalid? ==>
      ValidatePost(body).message == MissingField || ValidatePost(body).message == AtLeast(1)
  {
    var s := PostRules.sized;
    forall i | 0 <= i < |s| ensures s[i].bounds == Bounds(Some(1), None) {
    }
    UniformBoundMessages(PostRules, body, 1);
  }

  /** When every sized field has the same lower bound and no upper bound, the
      only refusals are "Missing field" and the at-least message for that bound. */
  lemma UniformBoundMessages(rules: Rules, body: Body, m: nat)
    requires forall i :: 0 <= i < |rules.sized| ==> rules.sized[i].bounds == Bounds(Some(m), None)
    ensures ValidateCreate(rules, body).Invalid? ==>
      ValidateCreate(rules, body).message == MissingField || ValidateCreate(rules, body).message == AtLeast(m)
  {
    FirstIndexNone(rules.sized, TooLong(body));
    forall i | 0 <= i < |rules.sized| ensures !TooLong(body)(rules.sized[i]) {
    }
  }

  /** With the `POST /` rules no field has an upper bound, so the at-most
      message is never produced. */
  lemma PostNeverTooLong(body: Body, n: nat)
    ensures ValidatePost(body).Invalid? ==> ValidatePost(body).message != AtMost(n)
  {
    PostRefusalMessages(body);
    MessagesDistinct(1, n);
  }

  /** Every `POST /` refusal is sent with status 422. */
  lemma PostRefusalStatus(body: Body)
    ensures !ValidatePost(body).Pass? ==> Status(ValidatePost(body)) == 422
  {
  }

  /** The keys `PUT /:id` requires, in the order it checks them. */
  const PutRequired: seq<string> := ["room", "description", "contents", "id"]

  /** The plain-text reply to a missing key: the key, quoted in backticks
      after "Missing ", followed by " in request body". */
  function MissingInBody(field: string): (r: string)
    ensures |r| == |field| + 26
    ensures r[..9] == "Missing `" && r[9..9 + |field|] == field
    ensures r[9 + |field|..] == "` in request body"
  {
    "Missing `" + field + "` in request body"
  }

  /** The plain-text reply to an id mismatch: both ids, each in parentheses,
      path id first. */
  function IdMismatch(pathId: string, bodyId: string): (r: string)
    ensures |r| == |pathId| + |bodyId| + 52
    ensures r[..17] == "Request path id (" && r[17..17 + |pathId|] == pathId
    ensures r[17 + |pathId|..40 + |pathId|] == ") and request body id ("
    ensures r[40 + |pathId|..40 + |pathId| + |bodyId|] == bodyId
    ensures r[40 + |pathId| + |bodyId|..] == ") must match"
  {
    "Request path id (" + pathId + ") and request body id (" + bodyId + ") must match"
  }

  /** The missing-key reply names the key: different keys, different replies. */
  lemma MissingInBodyInjective(a: string, b: string)
    requires MissingInBody(a) == MissingInBody(b)
    ensures a == b
  {
    assert |a| == |b| by {
      assert |MissingInBody(a)| == |a| + 26 && |MissingInBody(b)| == |b| + 26;
    }
    assert a == MissingInBody(a)[9..9 + |a|];
    assert b == MissingInBody(b)[9..9 + |b|];
  }

  /** `PUT /:id` validation: first missing key in `PutRequired`, else the path id
      must equal the body id exactly. */
  function UpdateVerdict(pathId: string, body: Body): (v: Verdict)
    ensures v.Pass? || v.BadRequest?
    ensures v.Pass? <==> AllPresent(PutRequired, body) && "id" in body && body["id"] == pathId
  {
    match FirstIndex(PutRequired, Absent(body))
    case Some(i) => BadRequest(MissingInBody(PutRequired[i]))
    case None =>
      assert Absent(body)(PutRequired[3]) == false;
      if pathId != body["id"] then BadRequest(IdMismatch(pathId, body["id"])) else Pass
  }

  /** Every `PUT /:id` refusal is sent with status 400. */
  lemma UpdateRefusalStatus(pathId: string, body: Body)
    ensures !UpdateVerdict(pathId, body).Pass? ==> Status(UpdateVerdict(pathId, body)) == 400
  {
  }

  /** PUT missing field: the 400 names the first absent key of `room`,
      `description`, `contents`, `id`. */
  lemma {:induction false} UpdateMissingField(pathId: string, body: Body, i: nat)
    requires i < |PutRequired| && PutRequired[i] !in body
    requires forall j :: 0 <= j < i ==> PutRequired[j] in body
    ensures UpdateVerdict(pathId, body) == BadRequest(MissingInBody(PutRequired[i]))
  {
    FirstIndexIsFirst(PutRequired, Absent(body), i);
  }

  /** PUT id match: once every key is present, the request is refused exactly
      when the ids differ, with the mismatch message; otherwise it passes. */
  lemma UpdateIdMatch(pathId: string, body: Body)
    requires AllPresent(PutRequired, body) && "id" in body
    ensures UpdateVerdict(pathId, body).BadRequest? <==> pathId != body["id"]
    ensures pathId != body["id"] ==>
      UpdateVerdict(pathId, body) == BadRequest(IdMismatch(pathId, body["id"]))
    ensures pathId == body["id"] ==> UpdateVerdict(pathId, body) == Pass
  {
    FirstIndexNone(PutRequired, Absent(body));
  }

  /** The `PUT /:id` handler's checks as written: a loop over the required keys
      that returns at the first absent one, then the id comparison. */
  method CheckUpdate(pathId: string, body: Body) returns (v: Verdict)
    ensures v == UpdateVerdict(pathId, body)
  {
    var i := 0;
    while i < |PutRequired|
      invariant 0 <= i <= |PutRequired|
      invariant forall j :: 0 <= j < i ==> PutRequired[j] in body
    {
      var field := PutRequired[i];
      if field !in body {
        FirstIndexIsFirst(PutRequired, Absent(body), i);
        return BadRequest(MissingInBody(field));
      }
      i := i + 1;
    }
    FirstIndexNone(PutRequired, Absent(body));
    if pathId != body["id"] {
      return BadRequest(IdMismatch(pathId, body["id"]));
    }
    return Pass;
  }
}
