/**
 Value templates (src/headers.rs): lexing `{name|fallback}` tokens, resolving
 them to parts, and the text a list of parts stands for in a request context.
 Regular expressions and header-name syntax are parameters (`Lib`).
 */
module Templates {
  import opened Common
  import opened Text

  /** Capture groups of one match: index 0 is the whole match. */
  type Captures = seq<Option<string>>

  /** Capture groups a pattern declares; group 0 is not counted. */
  datatype CaptureScope = CaptureScope(groups: nat, names: seq<(string, nat)>)

  /**
   What the templates use of other libraries: a header name's canonical form
   (None when the text is not a header name), the groups of a pattern (None when
   it is not a regular expression), and unanchored search.
   */
  datatype Lib = Lib(
    headerName: string -> Option<string>,
    regex: string -> Option<CaptureScope>,
    captures: (string, string) -> Option<Captures>)

  datatype KnownVar =
    | ClientIp | Username | Groups | Method | Path | Query | PathAndQuery
    | Host | Scheme | ClientCertSubject | ClientCertSans | Country

  const BUILTINS: seq<(string, KnownVar)> := [
    ("client_ip", ClientIp), ("username", Username), ("groups", Groups),
    ("method", Method), ("path", Path), ("query", Query),
    ("path_and_query", PathAndQuery), ("host", Host), ("scheme", Scheme),
    ("client_cert_subject", ClientCertSubject),
    ("client_cert_sans", ClientCertSans), ("country", Country)]

  /** The first pair with this key. */
  function Assoc<T>(pairs: seq<(string, T)>, key: string): Option<T> {
    if pairs == [] then None
    else if pairs[0].0 == key then Some(pairs[0].1)
    else Assoc(pairs[1..], key)
  }

  function KnownVarOf(name: string): Option<KnownVar> {
    Assoc(BUILTINS, name)
  }

  datatype Part =
    | Literal(text: string)
    | Builtin(v: KnownVar, fallback: Option<string>)
    | Custom(id: nat, fallback: Option<string>)
    | Header(name: string, fallback: Option<string>)
    | Capture(group: nat, fallback: Option<string>)
    | Unknown(raw: string)

  type Template = seq<Part>

  // -- Lexing -------------------------------------------------------------

  datatype RawTok =
    | Text(text: string)
    | Token(name: string, fallback: Option<string>, raw: string)

  function Braced(inner: string): string {
    ['{'] + inner + ['}']
  }

  /** The text between the braces of a token. */
  function Inner(name: string, fallback: Option<string>): string {
    if fallback.Some? then name + (['|'] + fallback.value) else name
  }

  /** The token written between two braces, split at the first bar. */
  function TokenOf(inner: string): RawTok {
    FindSound(inner, '|', 0);
    var p := Find(inner, '|', 0);
    if p == |inner| then Token(inner, None, Braced(inner))
    else Token(inner[..p], Some(inner[p + 1..]), Braced(inner))
  }

  function Plain(text: string): seq<RawTok> {
    if text == [] then [] else [Text(text)]
  }

  /** Where the first token of a string lies. */
  datatype Cut = NoBrace | Unclosed(open: nat) | Closed(open: nat, close: nat)

  ghost predicate IsCut(s: string, r: Cut) {
    match r
    case NoBrace => IsFirst(s, '{', 0, |s|)
    case Unclosed(o) => o < |s| && IsFirst(s, '{', 0, o) && IsFirst(s, '}', o + 1, |s|)
    case Closed(o, c) => o < c < |s| && IsFirst(s, '{', 0, o) && IsFirst(s, '}', o + 1, c)
  }

  function FirstCut(s: string): Cut {
    FindSound(s, '{', 0);
    var open := Find(s, '{', 0);
    if open == |s| then NoBrace
    else
      FindSound(s, '}', open + 1);
      var close := Find(s, '}', open + 1);
      if close == |s| then Unclosed(open) else Closed(open, close)
  }

  lemma CutSound(s: string)
    ensures IsCut(s, FirstCut(s))
    ensures FirstCut(s).Unclosed? ==> FirstCut(s).open < |s|
    ensures FirstCut(s).Closed? ==> FirstCut(s).open < FirstCut(s).close < |s|
  {
    FindSound(s, '{', 0);
    var open := Find(s, '{', 0);
    if open < |s| {
      FindSound(s, '}', open + 1);
    }
  }

  lemma CutUnique(s: string, r: Cut)
    requires IsCut(s, r)
    ensures FirstCut(s) == r
  {
    match r {
      case NoBrace => FindUnique(s, '{', 0, |s|);
      case Unclosed(o) => FindUnique(s, '{', 0, o); FindUnique(s, '}', o + 1, |s|);
      case Closed(o, c) => FindUnique(s, '{', 0, o); FindUnique(s, '}', o + 1, c);
    }
  }

  /** What the lexer emits up to and including the first token. */
  function Emitted(s: string, cut: Cut): seq<RawTok>
    requires IsCut(s, cut) && !cut.NoBrace?
  {
    Plain(s[..cut.open])
    + [if cut.Closed? then TokenOf(s[cut.open + 1..cut.close]) else Text(s[cut.open..])]
  }

  function Remaining(s: string, cut: Cut): string
    requires IsCut(s, cut) && !cut.NoBrace?
  {
    if cut.Closed? then s[cut.close + 1..] else []
  }

  /** The token stream of a template string. */
  function Tokens(s: string): seq<RawTok>
    decreases |s|
  {
    CutSound(s);
    var cut := FirstCut(s);
    if cut.NoBrace? then Plain(s) else Emitted(s, cut) + Tokens(Remaining(s, cut))
  }

  /** `lex`. */
  method Lex(s: string) returns (out: seq<RawTok>)
    ensures out == Tokens(s)
  {
    hide FirstCut, TokenOf, Find, IsCut;
    out := [];
    var rest := s;
    var cut := FirstCut(rest);
    while !cut.NoBrace?
      invariant cut == FirstCut(rest)
      invariant out + Tokens(rest) == Tokens(s)
      decreases |rest|
    {
      CutSound(rest);
      ConcatAssoc(out, Emitted(rest, cut), Tokens(Remaining(rest, cut)));
      ghost var before, plain := out, Plain(rest[..cut.open]);
      if cut.open > 0 {
        out := out + [Text(rest[..cut.open])];
      }
      assert out == before + plain;
      if cut.Closed? {
        ConcatAssoc(before, plain, [TokenOf(rest[cut.open + 1..cut.close])]);
        out := out + [TokenOf(rest[cut.open + 1..cut.close])];
        rest := rest[cut.close + 1..];
      } else {
        ConcatAssoc(before, plain, [Text(rest[cut.open..])]);
        out := out + [Text(rest[cut.open..])];
        rest := [];
      }
      cut := FirstCut(rest);
    }
    if rest != [] {
      out := out + [Text(rest)];
    }
  }

  function TokText(t: RawTok): string {
    match t
    case Text(s) => s
    case Token(_, _, raw) => raw
  }

  function Source(toks: seq<RawTok>): string {
    if toks == [] then [] else TokText(toks[0]) + Source(toks[1..])
  }

  ghost predicate IsPlain(t: RawTok) {
    t.Text? && t.text != [] && Free(t.text, '{')
  }

  /** Text from an opening brace that is never closed. */
  ghost predicate IsUnclosed(t: RawTok) {
    t.Text? && t.text != [] && t.text[0] == '{' && Free(t.text, '}')
  }

  ghost predicate IsReference(t: RawTok) {
    && t.Token? && Free(t.name, '|')
    && Free(Inner(t.name, t.fallback), '}')
    && t.raw == Braced(Inner(t.name, t.fallback))
  }

  /** Token lists that the lexer can produce. */
  ghost predicate Canonical(toks: seq<RawTok>) {
    toks == [] || (
      && Canonical(toks[1..])
      && (IsReference(toks[0])
          || (IsUnclosed(toks[0]) && |toks| == 1)
          || (IsPlain(toks[0]) && (|toks| > 1 ==> !IsPlain(toks[1])))))
  }

  lemma PrependPlain(text: string, toks: seq<RawTok>)
    requires Canonical(toks) && Free(text, '{')
    requires toks != [] && !IsPlain(toks[0])
    ensures Canonical(Plain(text) + toks)
    ensures Source(Plain(text) + toks) == text + Source(toks)
  {
    if text != [] {
      assert (Plain(text) + toks)[1..] == toks;
    } else {
      assert Plain(text) + toks == toks;
    }
  }

  lemma ConsToken(t: RawTok, toks: seq<RawTok>)
    requires Canonical(toks) && IsReference(t)
    ensures Canonical([t] + toks)
    ensures Source([t] + toks) == t.raw + Source(toks)
  {
    assert ([t] + toks)[1..] == toks;
  }

  lemma TokenOfSound(inner: string)
    requires Free(inner, '}')
    ensures IsReference(TokenOf(inner)) && TokenOf(inner).raw == Braced(inner)
  {
    FindSound(inner, '|', 0);
    var p := Find(inner, '|', 0);
    if p < |inner| {
      assert inner == inner[..p] + (['|'] + inner[p + 1..]);
    }
  }

  /** The token list loses no character, and has the canonical shape. */
  lemma {:induction false} TokensSound(s: string)
    ensures Source(Tokens(s)) == s
    ensures Canonical(Tokens(s))
    decreases |s|
  {
    hide IsFirst, FirstCut, TokenOf, Find, Emitted, Canonical, Source, IsCut;
    CutSound(s);
    match FirstCut(s) {
      case NoBrace => NoBraceSound(s);
      case Unclosed(o) =>
        CutUnique([], NoBrace);
        UnclosedSound(s, o);
      case Closed(o, c) =>
        TokensSound(s[c + 1..]);
        ClosedSound(s, o, c, Tokens(s[c + 1..]));
    }
  }

  lemma NoBraceSound(s: string)
    requires IsCut(s, NoBrace)
    ensures Canonical(Plain(s)) && Source(Plain(s)) == s
  {
    if s != [] {
      assert Plain(s)[1..] == [] && s + [] == s;
      assert IsPlain(Plain(s)[0]);
    }
  }

  lemma UnclosedSound(s: string, o: nat)
    requires IsCut(s, Unclosed(o))
    ensures Canonical(Emitted(s, Unclosed(o)) + []) && Source(Emitted(s, Unclosed(o)) + []) == s
  {
    var last := Text(s[o..]);
    assert Canonical([last][1..]);
    assert IsUnclosed(last);
    assert Source([last]) == s[o..];
    PrependPlain(s[..o], [last]);
    CutAt(s, o);
    assert Emitted(s, Unclosed(o)) + [] == Plain(s[..o]) + [last];
  }

  lemma ClosedSound(s: string, o: nat, c: nat, toks: seq<RawTok>)
    requires IsCut(s, Closed(o, c)) && Canonical(toks) && Source(toks) == s[c + 1..]
    ensures Canonical(Emitted(s, Closed(o, c)) + toks)
    ensures Source(Emitted(s, Closed(o, c)) + toks) == s
  {
    var t := TokenOf(s[o + 1..c]);
    TokenOfSound(s[o + 1..c]);
    ConsToken(t, toks);
    PrependPlain(s[..o], [t] + toks);
    ConcatAssoc(Plain(s[..o]), [t], toks);
    SplitAround(s, o, c);
  }

  lemma TokenOfInner(t: RawTok)
    requires IsReference(t)
    ensures TokenOf(Inner(t.name, t.fallback)) == t
  {
    var inner, n := Inner(t.name, t.fallback), |t.name|;
    if t.fallback.Some? {
      assert inner[n] == '|';
      assert forall i :: 0 <= i < n ==> inner[i] == t.name[i];
      FindUnique(inner, '|', 0, n);
      assert inner[..n] == t.name && inner[n + 1..] == t.fallback.value;
    } else {
      FindUnique(inner, '|', 0, n);
    }
  }

  lemma TokensOfReference(t: RawTok, rest: string)
    requires IsReference(t)
    ensures Tokens(t.raw + rest) == [t] + Tokens(rest)
  {
    var s, inner := t.raw + rest, Inner(t.name, t.fallback);
    var cut := Closed(0, |inner| + 1);
    assert s[1..cut.close] == inner && s[cut.close + 1..] == rest && s[..0] == [];
    assert forall i :: 0 < i < cut.close ==> s[i] == inner[i - 1];
    CutUnique(s, cut);
    TokenOfInner(t);
    assert Emitted(s, cut) == [t];
  }

  lemma TokensAfterPlain(text: string, rest: string)
    requires text != [] && Free(text, '{') && rest != [] && rest[0] == '{'
    ensures Tokens(text + rest) == [Text(text)] + Tokens(rest)
  {
    CutSound(rest);
    var n, cut := |text|, FirstCut(rest);
    assert cut.open == 0;
    var moved := if cut.Closed? then Closed(n, n + cut.close) else Unclosed(n);
    ShiftedCut(text, rest, cut, moved);
    CutUnique(text + rest, moved);
    ShiftedEmission(text, rest, cut, moved);
    ConcatAssoc([Text(text)], Emitted(rest, cut), Tokens(Remaining(rest, cut)));
  }

  lemma ShiftedCut(text: string, rest: string, cut: Cut, moved: Cut)
    requires Free(text, '{') && IsCut(rest, cut) && !cut.NoBrace? && cut.open == 0
    requires moved == if cut.Closed? then Closed(|text|, |text| + cut.close) else Unclosed(|text|)
    ensures IsCut(text + rest, moved)
  {
    var s, n := text + rest, |text|;
    assert forall i :: n <= i < |s| ==> s[i] == rest[i - n];
  }

  lemma ShiftedEmission(text: string, rest: string, cut: Cut, moved: Cut)
    requires text != [] && IsCut(rest, cut) && !cut.NoBrace? && cut.open == 0
    requires moved == if cut.Closed? then Closed(|text|, |text| + cut.close) else Unclosed(|text|)
    requires IsCut(text + rest, moved)
    ensures Emitted(text + rest, moved) == [Text(text)] + Emitted(rest, cut)
    ensures Remaining(text + rest, moved) == Remaining(rest, cut)
  {
    var s, n := text + rest, |text|;
    assert s[..n] == text && rest[..0] == [];
    if cut.Closed? {
      assert s[n + 1..n + cut.close] == rest[1..cut.close];
    } else {
      assert s[n..] == rest[0..];
    }
  }

  /** Lexing the text of a canonical token list gives that list back. */
  lemma {:induction false} TokensComplete(toks: seq<RawTok>)
    requires Canonical(toks)
    ensures Tokens(Source(toks)) == toks
  {
    hide FirstCut, TokenOf, Find, Emitted;
    if toks != [] {
      TokensComplete(toks[1..]);
      var t, rest := toks[0], Source(toks[1..]);
      assert toks == [t] + toks[1..];
      if IsReference(t) {
        TokensOfReference(t, rest);
      } else if |toks| == 1 {
        LoneText(t);
        assert toks[1..] == [] && t.text + [] == t.text;
      } else {
        assert rest == TokText(toks[1]) + Source(toks[1..][1..]);
        TokensAfterPlain(t.text, rest);
      }
    } else {
      CutUnique([], NoBrace);
    }
  }

  lemma LoneText(t: RawTok)
    requires IsPlain(t) || IsUnclosed(t)
    ensures Tokens(t.text) == [t]
  {
    if IsUnclosed(t) {
      var cut := Unclosed(0);
      CutUnique(t.text, cut);
      CutUnique([], NoBrace);
      assert t.text[0..] == t.text && t.text[..0] == [];
      assert Emitted(t.text, cut) == [t];
      assert Tokens(t.text) == Emitted(t.text, cut) + Tokens(Remaining(t.text, cut));
    } else {
      CutUnique(t.text, NoBrace);
    }
  }

  // -- Resolving tokens ---------------------------------------------------

  /** Name to slot, with the slot order kept alongside. */
  datatype VarNames = VarNames(names: seq<string>, index: map<string, nat>) {
    /** `names` and `index` are mutually inverse. */
    ghost predicate Valid() {
      && (forall i :: 0 <= i < |names| ==> names[i] in index && index[names[i]] == i)
      && (forall n :: n in index ==> index[n] < |names| && names[index[n]] == n)
    }

    function Get(name: string): Option<nat> {
      if name in index then Some(index[name]) else None
    }

    function Insert(name: string): VarNames {
      VarNames(names + [name], index[name := |names|])
    }
  }

  const NO_NAMES := VarNames([], map[])

  function DigitGroup(token: string): Option<nat> {
    if |token| == 1 && '1' <= token[0] <= '9' then Some((token[0] as int) - ('0' as int)) else None
  }

  function LookupGroup(caps: CaptureScope, token: string): Option<nat> {
    match Assoc(caps.names, token)
    case Some(i) => Some(i)
    case None =>
      match DigitGroup(token)
      case Some(i) => if i <= caps.groups then Some(i) else None
      case None => None
  }

  const HEADER_PREFIX := "header:"

  function HeaderOf(lib: Lib, name: string): Option<string> {
    if HEADER_PREFIX <= name then lib.headerName(name[|HEADER_PREFIX|..]) else None
  }

  /** The value asks for a numbered group the pattern does not have. */
  datatype CaptureError = NoSuchGroup(group: nat, groups: nat)

  function PartOf(lib: Lib, tok: RawTok, vars: Option<VarNames>, caps: Option<CaptureScope>)
    : Result<Part, CaptureError>
  {
    match tok
    case Text(l) => Ok(Literal(l))
    case Token(name, fb, raw) =>
      if KnownVarOf(name).Some? then Ok(Builtin(KnownVarOf(name).value, fb))
      else if vars.None? then Ok(Unknown(raw))
      else if HeaderOf(lib, name).Some? then Ok(Header(HeaderOf(lib, name).value, fb))
      else if caps.Some? && LookupGroup(caps.value, name).Some? then
        Ok(Capture(LookupGroup(caps.value, name).value, fb))
      else if caps.Some? && DigitGroup(name).Some? then
        Err(NoSuchGroup(DigitGroup(name).value, caps.value.groups))
      else
        match vars.value.Get(name)
        case Some(id) => Ok(Custom(id, fb))
        case None => Ok(Unknown(raw))
  }

  /** The parts of a token list, or the first token's error. */
  function PartsOf(lib: Lib, toks: seq<RawTok>, vars: Option<VarNames>, caps: Option<CaptureScope>)
    : (r: Result<Template, CaptureError>)
    ensures r.Ok? <==> forall k :: 0 <= k < |toks| ==> PartOf(lib, toks[k], vars, caps).Ok?
    ensures r.Ok? ==> |r.value| == |toks|
    ensures r.Ok? ==> forall k :: 0 <= k < |toks| ==> PartOf(lib, toks[k], vars, caps) == Ok(r.value[k])
  {
    if toks == [] then Ok([])
    else
      var n := |toks| - 1;
      match PartsOf(lib, toks[..n], vars, caps)
      case Err(e) => Err(e)
      case Ok(ps) =>
        match PartOf(lib, toks[n], vars, caps)
        case Err(e) => Err(e)
        case Ok(p) => Ok(ps + [p])
  }

  function Compiled(lib: Lib, s: string, vars: Option<VarNames>, caps: Option<CaptureScope>)
    : Result<Template, CaptureError>
  {
    PartsOf(lib, Tokens(s), vars, caps)
  }

  /** `Template::build`. */
  method Build(lib: Lib, s: string, vars: Option<VarNames>, caps: Option<CaptureScope>)
    returns (r: Result<Template, CaptureError>)
    ensures r == Compiled(lib, s, vars, caps)
  {
    hide PartOf;
    var toks := Lex(s);
    var parts: Template := [];
    for k := 0 to |toks|
      invariant PartsOf(lib, toks[..k], vars, caps) == Ok(parts)
    {
      TakeSnoc(toks, k);
      var p := PartOf(lib, toks[k], vars, caps);
      if p.Err? {
        ErrorPrefix(lib, toks, k + 1, vars, caps);
        return Err(p.error);
      }
      parts := parts + [p.value];
    }
    assert toks[..|toks|] == toks;
    return Ok(parts);
  }

  lemma {:induction false} ErrorPrefix(
    lib: Lib, toks: seq<RawTok>, k: nat, vars: Option<VarNames>, caps: Option<CaptureScope>)
    requires k <= |toks| && PartsOf(lib, toks[..k], vars, caps).Err?
    ensures PartsOf(lib, toks, vars, caps) == PartsOf(lib, toks[..k], vars, caps)
    decreases |toks|
  {
    if k < |toks| {
      var shorter := toks[..|toks| - 1];
      assert shorter[..k] == toks[..k];
      ErrorPrefix(lib, shorter, k, vars, caps);
    } else {
      assert toks[..k] == toks;
    }
  }

  /** Outside match arms, no text fails to compile. */
  lemma CompileNeverFails(lib: Lib, s: string, vars: Option<VarNames>)
    ensures Compiled(lib, s, vars, None).Ok?
  {
    var toks := Tokens(s);
    assert forall k :: 0 <= k < |toks| ==> PartOf(lib, toks[k], vars, None).Ok?;
  }

  ghost predicate InScope(t: Template, n: nat) {
    forall k :: 0 <= k < |t| && t[k].Custom? ==> t[k].id < n
  }

  /** References resolve to slots of the table they were compiled against. */
  lemma CompiledInScope(lib: Lib, s: string, vars: VarNames, caps: Option<CaptureScope>)
    requires vars.Valid() && Compiled(lib, s, Some(vars), caps).Ok?
    ensures InScope(Compiled(lib, s, Some(vars), caps).value, |vars.names|)
  {
    var toks, t := Tokens(s), Compiled(lib, s, Some(vars), caps).value;
    forall k | 0 <= k < |t| && t[k].Custom? ensures t[k].id < |vars.names| {
      assert PartOf(lib, toks[k], Some(vars), caps) == Ok(t[k]);
    }
  }

  // -- Rendering ----------------------------------------------------------

  datatype RequestContext = RequestContext(
    clientIp: string, username: string, groups: string, method_: string,
    path: string, query: string, pathAndQuery: string, host: string,
    scheme: string, clientCertSubject: string, clientCertSans: string,
    country: string, headers: seq<(string, string)>)

  function HeaderValue(headers: seq<(string, string)>, name: string): string {
    match Assoc(headers, name)
    case Some(v) => v
    case None => []
  }

  function BuiltinValue(ctx: RequestContext, v: KnownVar): string {
    match v
    case ClientIp => ctx.clientIp
    case Username => ctx.username
    case Groups => ctx.groups
    case Method => ctx.method_
    case Path => ctx.path
    case Query => ctx.query
    case PathAndQuery => ctx.pathAndQuery
    case Host => ctx.host
    case Scheme => ctx.scheme
    case ClientCertSubject => ctx.clientCertSubject
    case ClientCertSans => ctx.clientCertSans
    case Country => ctx.country
  }

  function CaptureValue(caps: Option<Captures>, i: nat): string {
    if caps.Some? && i < |caps.value| && caps.value[i].Some? then caps.value[i].value else ""
  }

  /** A variable's value in `env`; unknown slots read as empty. */
  function Lookup(env: seq<string>, id: nat): string {
    if id < |env| then env[id] else ""
  }

  function Fill(value: string, fallback: Option<string>): string {
    if value != "" then value
    else if fallback.Some? then fallback.value
    else ""
  }

  /** One part's text, given every variable's value. */
  function PartText(p: Part, ctx: RequestContext, caps: Option<Captures>, env: seq<string>): string {
    match p
    case Literal(s) => s
    case Unknown(s) => s
    case Builtin(v, fb) => Fill(BuiltinValue(ctx, v), fb)
    case Custom(id, fb) => Fill(Lookup(env, id), fb)
    case Header(n, fb) => Fill(HeaderValue(ctx.headers, n), fb)
    case Capture(i, fb) => Fill(CaptureValue(caps, i), fb)
  }

  function Render(t: Template, ctx: RequestContext, caps: Option<Captures>, env: seq<string>): string {
    if t == [] then ""
    else Render(t[..|t| - 1], ctx, caps, env) + PartText(t[|t| - 1], ctx, caps, env)
  }

  /** Templates whose parts read alike render alike. */
  lemma {:induction false} RenderCongruence(
    t1: Template, ctx1: RequestContext, caps: Option<Captures>, env1: seq<string>,
    t2: Template, ctx2: RequestContext, env2: seq<string>)
    requires |t1| == |t2|
    requires forall k :: 0 <= k < |t1| ==>
      PartText(t1[k], ctx1, caps, env1) == PartText(t2[k], ctx2, caps, env2)
    ensures Render(t1, ctx1, caps, env1) == Render(t2, ctx2, caps, env2)
    decreases |t1|
  {
    if t1 != [] {
      var n := |t1| - 1;
      RenderCongruence(t1[..n], ctx1, caps, env1, t2[..n], ctx2, env2);
    }
  }

  lemma {:induction false} SourceSnoc(toks: seq<RawTok>, t: RawTok)
    ensures Source(toks + [t]) == Source(toks) + TokText(t)
  {
    if toks == [] {
      assert [t][1..] == [] && [] + [t] == [t];
    } else {
      assert (toks + [t])[1..] == toks[1..] + [t];
      SourceSnoc(toks[1..], t);
    }
  }

  ghost predicate Verbatim(p: Part, t: RawTok) {
    (p.Literal? && p.text == TokText(t)) || (p.Unknown? && p.raw == TokText(t))
  }

  lemma {:induction false} VerbatimParts(
    toks: seq<RawTok>, ps: Template, ctx: RequestContext, groups: Option<Captures>, env: seq<string>)
    requires |ps| == |toks| && forall k :: 0 <= k < |ps| ==> Verbatim(ps[k], toks[k])
    ensures Render(ps, ctx, groups, env) == Source(toks)
    decreases |toks|
  {
    if toks != [] {
      var n := |toks| - 1;
      VerbatimParts(toks[..n], ps[..n], ctx, groups, env);
      SourceSnoc(toks[..n], toks[n]);
      assert toks == toks[..n] + [toks[n]];
    }
  }

  /** A template none of whose tokens resolves renders as it was written. */
  lemma UnresolvedRendersVerbatim(
    lib: Lib, s: string, vars: Option<VarNames>, caps: Option<CaptureScope>, t: Template,
    ctx: RequestContext, groups: Option<Captures>, env: seq<string>)
    requires Compiled(lib, s, vars, caps) == Ok(t)
    requires forall k :: 0 <= k < |t| ==> t[k].Literal? || t[k].Unknown?
    ensures Render(t, ctx, groups, env) == s
  {
    var toks := Tokens(s);
    forall k | 0 <= k < |t| ensures Verbatim(t[k], toks[k]) {
      assert PartOf(lib, toks[k], vars, caps) == Ok(t[k]);
    }
    VerbatimParts(toks, t, ctx, groups, env);
    TokensSound(s);
  }

  // -- References ---------------------------------------------------------

  /** A request-time facility a template may call for. */
  datatype Want = Principal | GeoIp | HeaderNamed(name: string)

  /** A part reads this facility directly. */
  predicate PartAsks(p: Part, w: Want) {
    match w
    case Principal => p.Builtin? && (p.v.Username? || p.v.Groups?)
    case GeoIp => p.Builtin? && p.v.Country?
    case HeaderNamed(h) => p.Header? && p.name == h
  }

  ghost predicate Asks(t: Template, w: Want) {
    exists k :: 0 <= k < |t| && PartAsks(t[k], w)
  }

  ghost predicate RefersTo(t: Template, id: nat) {
    exists k :: 0 <= k < |t| && t[k].Custom? && t[k].id == id
  }

  ghost predicate NoDup<T>(s: seq<T>) {
    forall i, j :: 0 <= i < j < |s| ==> s[i] != s[j]
  }

  datatype TemplateRefs = TemplateRefs(
    principal: bool, geoip: bool, headers: seq<string>, vars: seq<nat>)

  predicate Listed(principal: bool, geoip: bool, headers: seq<string>, w: Want) {
    match w
    case Principal => principal
    case GeoIp => geoip
    case HeaderNamed(h) => h in headers
  }

  ghost predicate RefsExact(t: Template, r: TemplateRefs) {
    && (forall w :: Listed(r.principal, r.geoip, r.headers, w) <==> Asks(t, w))
    && (forall id :: id in r.vars <==> RefersTo(t, id))
    && NoDup(r.headers) && NoDup(r.vars)
  }

  /** `Template::refs`: exactly the direct references, each listed once. */
  method Refs(t: Template) returns (r: TemplateRefs)
    ensures RefsExact(t, r)
  {
    r := TemplateRefs(false, false, [], []);
    for k := 0 to |t|
      invariant RefsExact(t[..k], r)
    {
      var p := t[k];
      forall w ensures Asks(t[..k + 1], w) <==> Asks(t[..k], w) || PartAsks(p, w) {
        AsksSnoc(t, k, w);
      }
      forall id ensures RefersTo(t[..k + 1], id) <==> RefersTo(t[..k], id) || (p.Custom? && p.id == id) {
        RefersSnoc(t, k, id);
      }
      ghost var r0 := r;
      match p {
        case Builtin(v, _) =>
          if v.Username? || v.Groups? {
            r := r.(principal := true);
          } else if v.Country? {
            r := r.(geoip := true);
          }
        case Header(n, _) =>
          if n !in r.headers {
            r := r.(headers := r.headers + [n]);
          }
        case Custom(id, _) =>
          if id !in r.vars {
            r := r.(vars := r.vars + [id]);
          }
        case _ =>
      }
      assert forall h :: h in r.headers <==> h in r0.headers || PartAsks(p, HeaderNamed(h));
      forall w ensures Listed(r.principal, r.geoip, r.headers, w)
                  <==> Listed(r0.principal, r0.geoip, r0.headers, w) || PartAsks(p, w) {
        match w {
          case _ =>
        }
      }
    }
    assert t[..|t|] == t;
  }

  lemma AsksConcat(a: Template, b: Template, w: Want)
    ensures Asks(a + b, w) <==> Asks(a, w) || Asks(b, w)
  {
    var c := a + b;
    if k :| 0 <= k < |a| && PartAsks(a[k], w) {
      assert PartAsks(c[k], w);
    }
    if k :| 0 <= k < |b| && PartAsks(b[k], w) {
      assert PartAsks(c[|a| + k], w);
    }
  }

  lemma RefersConcat(a: Template, b: Template, id: nat)
    ensures RefersTo(a + b, id) <==> RefersTo(a, id) || RefersTo(b, id)
  {
    var c := a + b;
    if k :| 0 <= k < |a| && a[k].Custom? && a[k].id == id {
      assert c[k] == a[k];
    }
    if k :| 0 <= k < |b| && b[k].Custom? && b[k].id == id {
      assert c[|a| + k] == b[k];
    }
  }

  lemma AsksSnoc(t: Template, k: nat, w: Want)
    requires k < |t|
    ensures Asks(t[..k + 1], w) <==> Asks(t[..k], w) || PartAsks(t[k], w)
  {
    TakeSnoc(t, k);
    AsksConcat(t[..k], [t[k]], w);
    assert Asks([t[k]], w) <==> PartAsks([t[k]][0], w);
  }

  lemma RefersSnoc(t: Template, k: nat, id: nat)
    requires k < |t|
    ensures RefersTo(t[..k + 1], id) <==> RefersTo(t[..k], id) || (t[k].Custom? && t[k].id == id)
  {
    TakeSnoc(t, k);
    RefersConcat(t[..k], [t[k]], id);
    assert [t[k]][0] == t[k];
  }
}
