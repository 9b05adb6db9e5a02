/** `app/auth/schemas.py`: the request and response bodies of the auth endpoints, as pydantic validates them. */
module Schemas {

  import opened Wrappers
  import opened Json
  import opened Text

  /** `Field(..., min_length=8, max_length=72)`, counted in characters. */
  const MinPasswordLength: int := 8
  const MaxPasswordLength: int := 72

  /** A validated registration body. */
  datatype RegisterRequest = RegisterRequest(email: string, password: string)

  /** Whether pydantic's `EmailStr` accepts a value; its normalisation of the address is not modelled. */
  type EmailCheck = string -> bool

  /**
   * The `email` validator: `v.lower().strip()`, which leaves no upper-case ASCII
   * letter and no surrounding whitespace.
   */
  function NormalizeEmail(v: string): (r: string)
    ensures |r| <= |v|
    ensures forall i :: 0 <= i < |r| ==> !('A' <= r[i] <= 'Z')
    ensures Unpadded(r)
  {
    var l := Lower(v);
    assert Unpadded(Strip(l)) by {
      StripShape(l);
    }
    assert forall i | 0 <= i < |Strip(l)| :: !('A' <= Strip(l)[i] <= 'Z') by {
      StripInfix(l);
      forall i | 0 <= i < |Strip(l)|
        ensures !('A' <= Strip(l)[i] <= 'Z')
      {
        assert Strip(l)[i] == l[LeadingSpaces(l) + i];
      }
    }
    Strip(l)
  }

  predicate LengthInRange(s: string) {
    MinPasswordLength <= |s| <= MaxPasswordLength
  }

  /**
   * The `password` field: the length constraints apply to the raw string, then
   * the validator strips it and checks the length again.
   */
  function ValidatePassword(v: string): (r: Option<string>)
    ensures r.Some? <==> LengthInRange(v) && LengthInRange(Strip(v))
    ensures r.Some? ==> r.value == Strip(v) && LengthInRange(r.value)
  {
    if !LengthInRange(v) then None
    else
      var stripped := Strip(v);
      if !LengthInRange(stripped) then None else Some(stripped)
  }

  /**
   * `RegisterRequest(**body)`: exactly the fields `email` and `password`
   * (`extra = "forbid"`), both strings, the email accepted by `EmailStr`, the
   * password within length before and after stripping. `None` is the
   * `ValidationError`.
   */
  function ValidateRegister(isEmail: EmailCheck, body: map<string, Value>): (r: Option<RegisterRequest>)
    ensures r.Some? <==>
      && body.Keys == {"email", "password"}
      && body["email"].Str? && isEmail(body["email"].s)
      && body["password"].Str? && ValidatePassword(body["password"].s).Some?
    ensures r.Some? ==> r.value.email == NormalizeEmail(body["email"].s)
    ensures r.Some? ==> r.value.password == Strip(body["password"].s) && LengthInRange(r.value.password)
  {
    if body.Keys != {"email", "password"} then None
    else if !body["email"].Str? || !isEmail(body["email"].s) then None
    else if !body["password"].Str? then None
    else
      match ValidatePassword(body["password"].s)
      case None => None
      case Some(password) => Some(RegisterRequest(NormalizeEmail(body["email"].s), password))
  }

  /** The body a validated request would be sent as. */
  function RegisterBody(req: RegisterRequest): (body: map<string, Value>)
    ensures body.Keys == {"email", "password"}
  {
    map["email" := Str(req.email), "password" := Str(req.password)]
  }

  lemma LowerLower(s: string)
    ensures Lower(Lower(s)) == Lower(s)
  {
  }

  /** A normalised email is its own normal form. */
  lemma NormalizeEmailIdempotent(v: string)
    ensures NormalizeEmail(NormalizeEmail(v)) == NormalizeEmail(v)
  {
    var n := NormalizeEmail(v);
    LowerStripCommute(Lower(v));
    LowerLower(v);
    assert Lower(n) == n;
    StripStrip(Lower(v));
  }

  /** A stripped password of acceptable length validates to itself. */
  lemma ValidatePasswordIdempotent(v: string)
    requires ValidatePassword(v).Some?
    ensures ValidatePassword(ValidatePassword(v).value) == ValidatePassword(v)
  {
    StripStrip(v);
  }

  /** Validation is a normalisation: sending back what it produced validates to the same request. */
  lemma ValidateRegisterIdempotent(isEmail: EmailCheck, body: map<string, Value>)
    requires ValidateRegister(isEmail, body).Some?
    requires isEmail(ValidateRegister(isEmail, body).value.email)
    ensures ValidateRegister(isEmail, RegisterBody(ValidateRegister(isEmail, body).value)) == ValidateRegister(isEmail, body)
  {
    var req := ValidateRegister(isEmail, body).value;
    var again := RegisterBody(req);
    assert NormalizeEmail(req.email) == req.email by {
      NormalizeEmailIdempotent(body["email"].s);
    }
    assert ValidatePassword(req.password) == Some(req.password) by {
      ValidatePasswordIdempotent(body["password"].s);
    }
    assert again["email"] == Str(req.email) && again["password"] == Str(req.password);
    assert ValidateRegister(isEmail, again) == Some(RegisterRequest(req.email, req.password));
  }

  /** Any field besides `email` and `password` makes the body invalid. */
  lemma ExtraFieldRejected(isEmail: EmailCheck, body: map<string, Value>, name: string, v: Value)
    requires name != "email" && name != "password"
    ensures ValidateRegister(isEmail, body[name := v]).None?
  {
    assert name in body[name := v].Keys;
  }

  /** `"abc" * 30`. */
  function AbcTimesThirty(): (r: string)
    ensures |r| == 90
  {
    seq(90, i requires 0 <= i < 90 => "abc"[i % 3])
  }

  /** The passwords `"021"` (3 characters) and `"abc" * 30` (90 characters) are refused. */
  lemma LengthExamples()
    ensures ValidatePassword("021").None?
    ensures ValidatePassword(AbcTimesThirty()).None?
  {
  }

  lemma PaddedTrimStart()
    ensures TrimStart("  123abcde  ") == "123abcde  "
  {
    var s := "  123abcde  ";
    assert IsSpace(s[0]) && IsSpace(s[1]) && !IsSpace(s[2]);
    assert TrimStart(s) == TrimStart(s[1..]);
    assert TrimStart(s[1..]) == TrimStart(s[2..]);
    assert s[2..] == "123abcde  ";
  }

  lemma PaddedTrimEnd()
    ensures TrimEnd("123abcde  ") == "123abcde"
  {
    var t := "123abcde  ";
    assert IsSpace(t[9]) && IsSpace(t[8]) && !IsSpace(t[7]);
    assert TrimEnd(t) == TrimEnd(t[..9]);
    assert TrimEnd(t[..9]) == TrimEnd(t[..8]);
    assert t[..8] == "123abcde";
  }

  /** Whitespace around a password is stripped before it is stored. */
  lemma PaddedPasswordExample()
    ensures ValidatePassword("  123abcde  ") == Some("123abcde")
  {
    PaddedTrimStart();
    PaddedTrimEnd();
    assert Strip("  123abcde  ") == "123abcde";
    assert LengthInRange("  123abcde  ") && LengthInRange("123abcde");
  }

  /** Surrounding whitespace and capitals are removed from the email. */
  lemma EmailExample()
    ensures NormalizeEmail(" MaHdi@x.com ") == "mahdi@x.com"
  {
    var l := Lower(" MaHdi@x.com ");
    assert l == " mahdi@x.com ";
    assert IsSpace(l[0]) && !IsSpace(l[1]);
    assert TrimStart(l) == TrimStart(l[1..]);
    assert TrimStart(l) == "mahdi@x.com ";
    var t := "mahdi@x.com ";
    assert IsSpace(t[11]) && !IsSpace(t[10]);
    assert TrimEnd(t) == TrimEnd(t[..11]);
    assert TrimEnd(t) == "mahdi@x.com";
  }

  /** The token response body. */
  datatype TokenResponse = TokenResponse(accessToken: string, tokenType: string, expiresIn: Option<int>)

  /**
   * `TokenResponse(**fields)`: `access_token` is a required string; `token_type`
   * is a string when given (`str` is not optional, so `None` is refused) and
   * defaults to `"bearer"`; `expires_in` is an integer or `None` and defaults to
   * `None`; any other field is ignored (pydantic's default `extra = "ignore"`).
   */
  function TokenResponseFrom(fields: map<string, Value>): (r: Option<TokenResponse>)
    ensures r.Some? <==>
      && "access_token" in fields && fields["access_token"].Str?
      && ("token_type" !in fields || fields["token_type"].Str?)
      && (Get(fields, "expires_in").Num? || Get(fields, "expires_in").Null?)
    ensures r.Some? ==> r.value.accessToken == fields["access_token"].s
    ensures r.Some? ==> r.value.tokenType == if "token_type" in fields then fields["token_type"].s else "bearer"
    ensures r.Some? ==> (r.value.expiresIn.Some? <==> "expires_in" in fields && fields["expires_in"].Num?)
  {
    if "access_token" !in fields || !fields["access_token"].Str? then None
    else if "token_type" in fields && !fields["token_type"].Str? then None
    else
      var expiresIn := Get(fields, "expires_in");
      if !(expiresIn.Null? || expiresIn.Num?) then None
      else
        Some(TokenResponse(
          fields["access_token"].s,
          if "token_type" in fields then fields["token_type"].s else "bearer",
          if expiresIn.Num? then Some(expiresIn.n) else None))
  }

  /** `model_dump()`: the three declared fields, `None` as JSON null. */
  function Dump(t: TokenResponse): (fields: map<string, Value>)
    ensures fields.Keys == {"access_token", "token_type", "expires_in"}
  {
    map["access_token" := Str(t.accessToken), "token_type" := Str(t.tokenType),
        "expires_in" := if t.expiresIn.Some? then Num(t.expiresIn.value) else Null]
  }

  /** Dumping a response and validating the dump gives the response back. */
  lemma TokenResponseRoundTrip(t: TokenResponse)
    ensures TokenResponseFrom(Dump(t)) == Some(t)
  {
    var d := Dump(t);
    assert d["access_token"] == Str(t.accessToken) && d["token_type"] == Str(t.tokenType);
  }

  /**
   * Only `access_token` is required: `token_type` then reads `"bearer"` and
   * `expires_in` reads `None`. An explicit `None` is accepted for `expires_in`
   * but refused for `token_type`.
   */
  lemma TokenResponseDefaults(accessToken: string)
    ensures TokenResponseFrom(map["access_token" := Str(accessToken)]) == Some(TokenResponse(accessToken, "bearer", None))
    ensures TokenResponseFrom(map["access_token" := Str(accessToken), "token_type" := Str("bearer")]) == Some(TokenResponse(accessToken, "bearer", None))
    ensures TokenResponseFrom(map["access_token" := Str(accessToken), "expires_in" := Null]) == Some(TokenResponse(accessToken, "bearer", None))
    ensures TokenResponseFrom(map["access_token" := Str(accessToken), "token_type" := Null]) == None
  {
  }

  /**
   * A field the model does not declare, such as `refresh_token`, is dropped:
   * the response and its dump are the same with or without it.
   */
  lemma UndeclaredFieldIgnored(fields: map<string, Value>, name: string, v: Value)
    requires name != "access_token" && name != "token_type" && name != "expires_in"
    ensures TokenResponseFrom(fields[name := v]) == TokenResponseFrom(fields)
    ensures TokenResponseFrom(fields).Some? ==> name !in Dump(TokenResponseFrom(fields).value)
  {
    var f := fields[name := v];
    assert ("token_type" in f <==> "token_type" in fields) && ("token_type" in f ==> f["token_type"] == fields["token_type"]);
    assert Get(f, "expires_in") == Get(fields, "expires_in");
    if "access_token" in fields {
      assert f["access_token"] == fields["access_token"];
    }
  }
}
