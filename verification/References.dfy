/**
 What a written reference shows, from template text to response text: the twelve built-in names,
 request headers, capture groups, and anything that is none of these.
 */
module References {
  import opened Common
  import opened Text
  import opened Templates

  /** The text `{name}` or `{name|fallback}`. */
  function Written(name: string, fallback: Option<string>): string {
    if fallback.Some? then "{" + name + "|" + fallback.value + "}" else "{" + name + "}"
  }

  ghost predicate IsName(name: string) {
    Free(name, '|') && Free(name, '}')
  }

  ghost predicate IsFallback(fallback: Option<string>) {
    fallback.Some? ==> Free(fallback.value, '}')
  }

  /** Such a text is one token, whatever its fallback. */
  lemma OneToken(name: string, fallback: Option<string>)
    requires IsName(name) && IsFallback(fallback)
    ensures Tokens(Written(name, fallback)) == [Token(name, fallback, Written(name, fallback))]
  {
    var t := Token(name, fallback, Written(name, fallback));
    assert Written(name, fallback) == Braced(Inner(name, fallback));
    assert IsReference(t);
    TokensOfReference(t, []);
    CutUnique([], NoBrace);
    assert t.raw + [] == t.raw;
    assert Tokens([]) == [];
  }

  /** The setting a template is compiled and rendered in. */
  datatype Setting = Setting(
    lib: Lib, vars: Option<VarNames>, caps: Option<CaptureScope>,
    ctx: RequestContext, groups: Option<Captures>, env: seq<string>)

  /** Compiling `text` in this setting gives a template that renders as `shown`. */
  ghost predicate TextShows(s: Setting, text: string, shown: string) {
    var t := Compiled(s.lib, text, s.vars, s.caps);
    t.Ok? && Render(t.value, s.ctx, s.groups, s.env) == shown
  }

  /** With any fallback or none, a reference to `name` shows `value`, or the fallback when that is empty. */
  ghost predicate Shows(s: Setting, name: string, value: string) {
    forall fallback :: IsFallback(fallback) ==>
      TextShows(s, Written(name, fallback),
                if value != "" then value else if fallback.Some? then fallback.value else "")
  }

  /** A reference that compiles to one part shows that part's text. */
  lemma PartShows(s: Setting, name: string, fallback: Option<string>, p: Part)
    requires IsName(name) && IsFallback(fallback)
    requires PartOf(s.lib, Token(name, fallback, Written(name, fallback)), s.vars, s.caps) == Ok(p)
    ensures TextShows(s, Written(name, fallback), PartText(p, s.ctx, s.groups, s.env))
  {
    hide PartOf, Tokens, PartText, Written;
    OneToken(name, fallback);
    var tok := Token(name, fallback, Written(name, fallback));
    OnePart(s.lib, tok, s.vars, s.caps, p);
    assert [p][..0] == [] && Render([p][..0], s.ctx, s.groups, s.env) == "";
  }

  lemma OnePart(lib: Lib, tok: RawTok, vars: Option<VarNames>, caps: Option<CaptureScope>, p: Part)
    requires PartOf(lib, tok, vars, caps) == Ok(p)
    ensures PartsOf(lib, [tok], vars, caps) == Ok([p])
  {
    hide PartOf;
    var r := PartsOf(lib, [tok], vars, caps);
    assert [tok][0] == tok;
    assert r.Ok? && r.value[0] == p;
    assert r.value == [p];
  }

  // -- Built-in names -----------------------------------------------------------------

  lemma {:induction false} AssocAt<T>(pairs: seq<(string, T)>, key: string, k: nat)
    requires k <= |pairs| && (k < |pairs| ==> pairs[k].0 == key)
    requires forall j :: 0 <= j < k ==> pairs[j].0 != key
    ensures Assoc(pairs, key) == if k < |pairs| then Some(pairs[k].1) else None
    decreases |pairs|
  {
    if k > 0 {
      AssocAt(pairs[1..], key, k - 1);
    }
  }

  const BUILTIN_NAMES: seq<string> := [
    "client_ip", "username", "groups", "method", "path", "query", "path_and_query", "host", "scheme",
    "client_cert_subject", "client_cert_sans", "country"]

  /** Which context field each built-in name stands for, in the order of `BUILTIN_NAMES`. */
  function Fields(ctx: RequestContext): seq<string> {
    [ctx.clientIp, ctx.username, ctx.groups, ctx.method_, ctx.path, ctx.query, ctx.pathAndQuery, ctx.host,
     ctx.scheme, ctx.clientCertSubject, ctx.clientCertSans, ctx.country]
  }

  lemma NamesDiffer(i: nat, j: nat)
    requires i < j < 12
    ensures BUILTIN_NAMES[i] != BUILTIN_NAMES[j]
  {
  }

  lemma BuiltinKnown(name: string, i: nat)
    requires i <= 12 && (i < 12 ==> name == BUILTIN_NAMES[i])
    requires i == 12 ==> name !in BUILTIN_NAMES
    ensures KnownVarOf(name) == if i < 12 then Some(BUILTINS[i].1) else None
  {
    assert |BUILTINS| == |BUILTIN_NAMES| == 12;
    forall j | 0 <= j < i ensures BUILTINS[j].0 != name {
      assert BUILTINS[j].0 == BUILTIN_NAMES[j];
      if i < 12 {
        NamesDiffer(j, i);
      }
    }
    AssocAt(BUILTINS, name, i);
  }

  lemma BuiltinName(i: nat)
    requires i < 12
    ensures IsName(BUILTIN_NAMES[i])
  {
  }

  lemma BuiltinField(ctx: RequestContext, i: nat)
    requires i < 12
    ensures BuiltinValue(ctx, BUILTINS[i].1) == Fields(ctx)[i]
  {
  }

  lemma KnownShows(s: Setting, name: string, v: KnownVar, value: string)
    requires IsName(name) && KnownVarOf(name) == Some(v) && BuiltinValue(s.ctx, v) == value
    ensures Shows(s, name, value)
  {
    hide KnownVarOf, BuiltinValue, IsName, IsFallback, TextShows, Written;
    forall fallback | IsFallback(fallback)
      ensures TextShows(s, Written(name, fallback),
                        if value != "" then value else if fallback.Some? then fallback.value else "")
    {
      PartShows(s, name, fallback, Builtin(v, fallback));
    }
  }

  lemma BuiltinShows(s: Setting, i: nat)
    requires i < 12
    ensures Shows(s, BUILTIN_NAMES[i], Fields(s.ctx)[i])
  {
    hide Shows, KnownVarOf, BuiltinValue, IsName;
    BuiltinName(i);
    BuiltinKnown(BUILTIN_NAMES[i], i);
    BuiltinField(s.ctx, i);
    KnownShows(s, BUILTIN_NAMES[i], BUILTINS[i].1, Fields(s.ctx)[i]);
  }

  /**
   Every built-in name shows its own field of the request, with any fallback, in every template:
   plain ones, variable definitions and match arms.
   */
  lemma BuiltinsShow(s: Setting)
    ensures Shows(s, "client_ip", s.ctx.clientIp) && Shows(s, "username", s.ctx.username)
    ensures Shows(s, "groups", s.ctx.groups) && Shows(s, "method", s.ctx.method_)
    ensures Shows(s, "path", s.ctx.path) && Shows(s, "query", s.ctx.query)
    ensures Shows(s, "path_and_query", s.ctx.pathAndQuery) && Shows(s, "host", s.ctx.host)
    ensures Shows(s, "scheme", s.ctx.scheme) && Shows(s, "client_cert_subject", s.ctx.clientCertSubject)
    ensures Shows(s, "client_cert_sans", s.ctx.clientCertSans) && Shows(s, "country", s.ctx.country)
  {
    hide Shows;
    forall i | 0 <= i < 12 ensures Shows(s, BUILTIN_NAMES[i], Fields(s.ctx)[i]) {
      BuiltinShows(s, i);
    }
    assert BUILTIN_NAMES[0] == "client_ip" && BUILTIN_NAMES[1] == "username" && BUILTIN_NAMES[2] == "groups";
    assert BUILTIN_NAMES[3] == "method" && BUILTIN_NAMES[4] == "path" && BUILTIN_NAMES[5] == "query";
    assert BUILTIN_NAMES[6] == "path_and_query" && BUILTIN_NAMES[7] == "host" && BUILTIN_NAMES[8] == "scheme";
    assert BUILTIN_NAMES[9] == "client_cert_subject" && BUILTIN_NAMES[10] == "client_cert_sans";
    assert BUILTIN_NAMES[11] == "country";
  }

  /**
   What the needs analysis hears of them: `{username}` and `{groups}` ask for the identity,
   `{country}` for a GeoIP lookup, and no built-in name for anything else.
   */
  lemma BuiltinAsks(s: Setting, i: nat, fallback: Option<string>, w: Want)
    requires i < 12 && IsFallback(fallback)
    ensures var t := Compiled(s.lib, Written(BUILTIN_NAMES[i], fallback), s.vars, s.caps);
      t.Ok? && (Asks(t.value, w) <==>
        (w.Principal? && (BUILTIN_NAMES[i] == "username" || BUILTIN_NAMES[i] == "groups"))
        || (w.GeoIp? && BUILTIN_NAMES[i] == "country"))
  {
    var name := BUILTIN_NAMES[i];
    BuiltinName(i);
    BuiltinKnown(name, i);
    KnownAsks(s, name, BUILTINS[i].1, fallback, w);
    AskingNames(i);
  }

  lemma AskingNames(i: nat)
    requires i < 12
    ensures BUILTINS[i].1.Username? || BUILTINS[i].1.Groups? <==>
      BUILTIN_NAMES[i] == "username" || BUILTIN_NAMES[i] == "groups"
    ensures BUILTINS[i].1.Country? <==> BUILTIN_NAMES[i] == "country"
  {
    assert BUILTIN_NAMES[1] == "username" && BUILTIN_NAMES[2] == "groups" && BUILTIN_NAMES[11] == "country";
    forall j, k | 0 <= j < k < 12 ensures BUILTIN_NAMES[j] != BUILTIN_NAMES[k] {
      NamesDiffer(j, k);
    }
  }

  lemma KnownAsks(s: Setting, name: string, v: KnownVar, fallback: Option<string>, w: Want)
    requires IsName(name) && IsFallback(fallback) && KnownVarOf(name) == Some(v)
    ensures var t := Compiled(s.lib, Written(name, fallback), s.vars, s.caps);
      t.Ok? && (Asks(t.value, w) <==> (w.Principal? && (v.Username? || v.Groups?)) || (w.GeoIp? && v.Country?))
  {
    hide KnownVarOf, Tokens, Written, IsName;
    OneToken(name, fallback);
    var p := Builtin(v, fallback);
    OnePart(s.lib, Token(name, fallback, Written(name, fallback)), s.vars, s.caps, p);
    assert Asks([p], w) <==> PartAsks(p, w) by {
      assert [p][0] == p;
    }
  }

  // -- Headers --------------------------------------------------------------------------

  ghost predicate IsFirstHeader(headers: seq<(string, string)>, name: string, value: string, k: nat) {
    k < |headers| && headers[k] == (name, value) && forall j :: 0 <= j < k ==> headers[j].0 != name
  }

  /** The first header with this name, or empty. */
  ghost predicate IsHeaderValue(headers: seq<(string, string)>, name: string, value: string) {
    if forall k :: 0 <= k < |headers| ==> headers[k].0 != name then value == ""
    else exists k :: IsFirstHeader(headers, name, value, k)
  }

  lemma HeaderIs(headers: seq<(string, string)>, name: string, value: string)
    requires IsHeaderValue(headers, name, value)
    ensures HeaderValue(headers, name) == value
  {
    if forall k :: 0 <= k < |headers| ==> headers[k].0 != name {
      AssocAt(headers, name, |headers|);
    } else {
      var k: nat :| IsFirstHeader(headers, name, value, k);
      AssocAt(headers, name, k);
    }
  }

  lemma HeaderToken(x: string)
    requires IsName(x)
    ensures IsName("header:" + x) && ("header:" + x) !in BUILTIN_NAMES
    ensures HEADER_PREFIX <= "header:" + x && ("header:" + x)[|HEADER_PREFIX|..] == x
  {
    var name := "header:" + x;
    assert name[6] == ':';
    forall i | 0 <= i < 12 ensures BUILTIN_NAMES[i] != name {
      assert |BUILTIN_NAMES[i]| > 6 ==> BUILTIN_NAMES[i][6] != ':';
    }
  }

  /** `{header:x}` shows the first request header of that name, wherever variables are known. */
  lemma HeaderShows(s: Setting, x: string, h: string, value: string)
    requires IsName(x) && s.vars.Some? && s.lib.headerName(x) == Some(h)
    requires IsHeaderValue(s.ctx.headers, h, value)
    ensures Shows(s, "header:" + x, value)
  {
    var name := "header:" + x;
    HeaderToken(x);
    BuiltinKnown(name, 12);
    HeaderIs(s.ctx.headers, h, value);
    hide KnownVarOf, HeaderValue, IsName, IsFallback, TextShows, Written, IsHeaderValue;
    forall fallback | IsFallback(fallback)
      ensures TextShows(s, Written(name, fallback),
                        if value != "" then value else if fallback.Some? then fallback.value else "")
    {
      PartShows(s, name, fallback, Header(h, fallback));
    }
  }

  // -- Capture groups ----------------------------------------------------------------------

  /** The name `{1}` to `{9}` are written with. */
  function DigitName(k: nat): string
    requires 1 <= k <= 9
  {
    ["0123456789"[k]]
  }

  /** A name that nothing built in or header-like claims. */
  ghost predicate IsOpen(lib: Lib, name: string) {
    IsName(name) && name !in BUILTIN_NAMES && ("header:" <= name ==> lib.headerName(name[7..]) == None)
  }

  lemma OpenName(lib: Lib, name: string)
    requires IsOpen(lib, name)
    ensures KnownVarOf(name) == None && HeaderOf(lib, name) == None
  {
    BuiltinKnown(name, 12);
  }

  lemma DigitOpen(lib: Lib, k: nat)
    requires 1 <= k <= 9
    ensures IsOpen(lib, DigitName(k)) && DigitGroup(DigitName(k)) == Some(k)
  {
    forall i | 0 <= i < 12 ensures BUILTIN_NAMES[i] != DigitName(k) {
      assert |BUILTIN_NAMES[i]| > 1;
    }
  }

  /** The text a group captured, or empty. */
  function GroupText(g: Captures, i: nat): string {
    if i < |g| then (match g[i] case Some(text) => text case None => "") else ""
  }

  lemma GroupShows(s: Setting, name: string, i: nat)
    requires s.vars.Some? && s.caps.Some? && s.groups.Some? && IsOpen(s.lib, name)
    requires LookupGroup(s.caps.value, name) == Some(i)
    ensures Shows(s, name, GroupText(s.groups.value, i))
  {
    OpenName(s.lib, name);
    var value := GroupText(s.groups.value, i);
    assert CaptureValue(s.groups, i) == value && IsName(name);
    hide KnownVarOf, IsOpen, HeaderOf, LookupGroup, IsFallback, TextShows, Written, GroupText, CaptureValue, IsName;
    forall fallback | IsFallback(fallback)
      ensures TextShows(s, Written(name, fallback),
                        if value != "" then value else if fallback.Some? then fallback.value else "")
    {
      PartShows(s, name, fallback, Capture(i, fallback));
    }
  }

  ghost predicate NoGroupNamed(caps: CaptureScope, name: string) {
    forall j :: 0 <= j < |caps.names| ==> caps.names[j].0 != name
  }

  /** In a match arm, `{k}` shows what group `k` captured, */
  lemma NumberedGroupShows(s: Setting, k: nat)
    requires 1 <= k <= 9 && s.vars.Some? && s.caps.Some? && s.groups.Some?
    requires NoGroupNamed(s.caps.value, DigitName(k)) && k <= s.caps.value.groups
    ensures Shows(s, DigitName(k), GroupText(s.groups.value, k))
  {
    DigitOpen(s.lib, k);
    AssocAt(s.caps.value.names, DigitName(k), |s.caps.value.names|);
    hide Shows, DigitName, DigitGroup;
    GroupShows(s, DigitName(k), k);
  }

  /** and does not compile when the pattern has fewer groups. */
  lemma MissingGroupFails(s: Setting, k: nat, fallback: Option<string>)
    requires 1 <= k <= 9 && s.vars.Some? && s.caps.Some? && IsFallback(fallback)
    requires NoGroupNamed(s.caps.value, DigitName(k)) && k > s.caps.value.groups
    ensures Compiled(s.lib, Written(DigitName(k), fallback), s.vars, s.caps) == Err(NoSuchGroup(k, s.caps.value.groups))
  {
    var name := DigitName(k);
    DigitOpen(s.lib, k);
    OpenName(s.lib, name);
    AssocAt(s.caps.value.names, name, |s.caps.value.names|);
    OneToken(name, fallback);
    var tok := Token(name, fallback, Written(name, fallback));
    hide KnownVarOf, IsOpen, HeaderOf, Tokens, Written, DigitName, DigitGroup, Assoc;
    assert PartOf(s.lib, tok, s.vars, s.caps) == Err(NoSuchGroup(k, s.caps.value.groups));
    assert [tok][..0] == [] && [tok][0] == tok;
  }

  /** `{name}` shows the first group of that name. */
  lemma NamedGroupShows(s: Setting, name: string, j: nat)
    requires s.vars.Some? && s.caps.Some? && s.groups.Some? && IsOpen(s.lib, name)
    requires j < |s.caps.value.names| && s.caps.value.names[j].0 == name
    requires forall i :: 0 <= i < j ==> s.caps.value.names[i].0 != name
    ensures Shows(s, name, GroupText(s.groups.value, s.caps.value.names[j].1))
  {
    AssocAt(s.caps.value.names, name, j);
    hide Shows, DigitGroup, IsOpen;
    GroupShows(s, name, s.caps.value.names[j].1);
  }

  // -- Anything else ---------------------------------------------------------------------------

  /** Neither a group nor a variable of this setting. */
  ghost predicate IsUnbound(s: Setting, name: string) {
    s.vars.Some? ==>
      && name !in s.vars.value.index
      && (s.caps.Some? ==>
            NoGroupNamed(s.caps.value, name) && forall k :: 1 <= k <= 9 ==> name != DigitName(k))
  }

  lemma NotADigit(name: string)
    requires forall k :: 1 <= k <= 9 ==> name != DigitName(k)
    ensures DigitGroup(name) == None
  {
    forall c: char | '1' <= c <= '9' ensures exists k :: 1 <= k <= 9 && [c] == DigitName(k) {
      assert [c] == DigitName((c as int) - ('0' as int));
    }
    assert |name| == 1 ==> name == [name[0]];
  }

  /** A name that stands for nothing is shown as it was written, fallback and all. */
  lemma UnboundShowsItself(s: Setting, name: string, fallback: Option<string>)
    requires IsOpen(s.lib, name) && IsFallback(fallback) && IsUnbound(s, name)
    ensures TextShows(s, Written(name, fallback), Written(name, fallback))
  {
    OpenName(s.lib, name);
    if s.vars.Some? && s.caps.Some? {
      NotADigit(name);
      AssocAt(s.caps.value.names, name, |s.caps.value.names|);
    }
    hide KnownVarOf, IsOpen, HeaderOf, DigitGroup, Assoc, Written, TextShows, IsFallback;
    PartShows(s, name, fallback, Unknown(Written(name, fallback)));
  }

  /** Where no variables are known, a header reference is shown as written, too. */
  lemma PlainHeaderShowsItself(s: Setting, x: string, fallback: Option<string>)
    requires IsName(x) && s.vars.None? && IsFallback(fallback)
    ensures TextShows(s, Written("header:" + x, fallback), Written("header:" + x, fallback))
  {
    var name := "header:" + x;
    HeaderToken(x);
    BuiltinKnown(name, 12);
    hide KnownVarOf, IsName, Written, TextShows, IsFallback;
    PartShows(s, name, fallback, Unknown(Written(name, fallback)));
  }
}
