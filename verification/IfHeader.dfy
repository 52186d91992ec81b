/**
 The WebDAV If header of section 10.4 of RFC 4918: tokenizer and state machine (src/davheaders.rs),
 a specification printer, and the proof that the two are inverse to each other.
 */
module IfHeader {
  import opened Results
  import opened DavPaths

  datatype ETag = ETag(tag: Bytes, weak: bool) {
    predicate StrongEq(other: ETag) { !weak && !other.weak && tag == other.tag }

    predicate WeakEq(other: ETag) { tag == other.tag }
  }

  datatype IfItem = StateToken(token: Bytes) | EntityTag(etag: ETag)

  datatype IfCondition = IfCondition(negated: bool, item: IfItem)

  /** A resource tag is kept as the text of its URL. */
  datatype IfList = IfList(resourceTag: Option<Bytes>, conditions: seq<IfCondition>)

  datatype IfToken =
    | ListOpen
    | ListClose
    | Not
    | Word(word: Bytes)
    | Pointy(text: Bytes)
    | Tag(etag: ETag)
    | End

  datatype IfState = Start | RTag | InList | AfterNot | Bad

  /** The library calls that accept or reject text: UTF-8 validation and URL parsing. */
  datatype Env = Env(utf8: Bytes -> bool, isUrl: Bytes -> bool)

  datatype Invalid = Invalid

  const QUOTE: byte := 34
  const COLON: byte := 58
  const LPAREN: byte := 40
  const RPAREN: byte := 41
  const LESS: byte := 60
  const GREATER: byte := 62
  const LBRACKET: byte := 91
  const RBRACKET: byte := 93
  const NOT: Bytes := [78, 111, 116]
  const WEAK: Bytes := [87, 47]

  predicate IsWhitespace(c: byte) {
    c == 32 || c == 9 || c == 13 || c == 10
  }

  predicate IsSpecial(c: byte) {
    c == LESS || c == GREATER || c == LPAREN || c == RPAREN || c == LBRACKET || c == RBRACKET
  }

  // ---------------------------------------------------------------------------------------------
  // The tokenizer

  function TrimLeft(buf: Bytes): Bytes {
    if buf != [] && IsWhitespace(buf[0]) then TrimLeft(buf[1..]) else buf
  }

  /** `scan_until` from position `i` on: the text between `buf[0]` and the first unquoted `c`, and what follows. */
  function ScanFrom(buf: Bytes, c: byte, i: nat, quote: bool): (r: Result<(Bytes, Bytes), Invalid>)
    requires 1 <= i
    ensures r.Ok? ==> |r.value.1| + |r.value.0| + 2 == |buf|
    decreases |buf| - i
  {
    if i < |buf| && (quote || buf[i] != c) then
      if IsWhitespace(buf[i]) then Err(Invalid)
      else ScanFrom(buf, c, i + 1, quote != (buf[i] == QUOTE))
    else if i >= |buf| || quote then Err(Invalid)
    else Ok((buf[1..i], buf[i + 1..]))
  }

  predicate EndsWord(c: byte) {
    IsWhitespace(c) || IsSpecial(c) || c < 32
  }

  function ScanWord(buf: Bytes, i: nat): (r: Result<(Bytes, Bytes), Invalid>)
    requires i <= |buf|
    ensures r.Ok? ==> r.value.0 + r.value.1 == buf && (buf != [] ==> r.value.0 != [])
    decreases |buf| - i
  {
    if i == |buf| then Ok((buf, []))
    else if EndsWord(buf[i]) then
      if i == 0 then Err(Invalid) else Ok((buf[..i], buf[i..]))
    else ScanWord(buf, i + 1)
  }

  /** `ETag::from_str`: a quoted tag, or leniently an unquoted one. */
  function ParseETag(t: Bytes): Result<ETag, Invalid> {
    var weak := |t| >= 2 && t[..2] == WEAK;
    var s := if weak then t[2..] else t;
    if |s| >= 2 && s[0] == QUOTE && s[|s| - 1] == QUOTE && QUOTE !in s[1..|s| - 1] then Ok(ETag(s[1..|s| - 1], weak))
    else if s != [] && QUOTE !in s then Ok(ETag(s, weak))
    else Err(Invalid)
  }

  /** `Display` for entity tags. */
  function PrintETag(e: ETag): Bytes {
    (if e.weak then WEAK else []) + [QUOTE] + e.tag + [QUOTE]
  }

  function NextToken(input: Bytes, env: Env): (r: Result<(IfToken, Bytes), Invalid>)
    ensures r.Ok? ==> |r.value.1| <= |TrimLeft(input)| && (r.value.0 != End ==> |r.value.1| < |TrimLeft(input)|)
  {
    var buf := TrimLeft(input);
    if buf == [] then Ok((End, buf))
    else if buf[0] == LPAREN then Ok((ListOpen, buf[1..]))
    else if buf[0] == RPAREN then Ok((ListClose, buf[1..]))
    else if |buf| >= 3 && buf[..3] == NOT then Ok((Not, buf[3..]))
    else if buf[0] == LESS then
      var scanned := ScanFrom(buf, GREATER, 1, false);
      if scanned.Err? || !env.utf8(scanned.value.0) then Err(Invalid)
      else Ok((Pointy(scanned.value.0), scanned.value.1))
    else if buf[0] == LBRACKET then
      var scanned := ScanFrom(buf, RBRACKET, 1, false);
      if scanned.Err? || !env.utf8(scanned.value.0) then Err(Invalid)
      else
        var etag := ParseETag(scanned.value.0);
        if etag.Err? then Err(Invalid) else Ok((Tag(etag.value), scanned.value.1))
    else
      var scanned := ScanWord(buf, 0);
      if scanned.Err? then Err(Invalid)
      else if scanned.value.0 == NOT then Ok((Not, scanned.value.1))
      else if !env.utf8(scanned.value.0) then Err(Invalid)
      else Ok((Word(scanned.value.0), scanned.value.1))
  }

  lemma {:induction false} TrimShortens(buf: Bytes)
    ensures |TrimLeft(buf)| <= |buf|
  {
    if buf != [] && IsWhitespace(buf[0]) { TrimShortens(buf[1..]); }
  }

  /** Every token except the end of input strictly shortens what is left to read. */
  lemma TokenShortensInput(input: Bytes, env: Env)
    ensures NextToken(input, env).Ok? ==>
              var (token, rest) := NextToken(input, env).value;
              |rest| <= |input| && (token != End ==> |rest| < |input|)
  {
    TrimShortens(input);
  }

  // The loops of the tokenizer

  method DoTrimLeft(input: Bytes) returns (buf: Bytes)
    ensures buf == TrimLeft(input)
  {
    buf := input;
    while buf != [] && IsWhitespace(buf[0])
      invariant TrimLeft(buf) == TrimLeft(input)
      decreases |buf|
    {
      buf := buf[1..];
    }
  }

  method ScanUntil(buf: Bytes, c: byte) returns (r: Result<(Bytes, Bytes), Invalid>)
    ensures r == ScanFrom(buf, c, 1, false)
  {
    var i := 1;
    var quote := false;
    while i < |buf| && (quote || buf[i] != c)
      invariant 1 <= i
      invariant ScanFrom(buf, c, i, quote) == ScanFrom(buf, c, 1, false)
      decreases |buf| - i
    {
      if IsWhitespace(buf[i]) {
        return Err(Invalid);
      }
      if buf[i] == QUOTE {
        quote := !quote;
      }
      i := i + 1;
    }
    if i >= |buf| || quote {
      return Err(Invalid);
    }
    r := Ok((buf[1..i], buf[i + 1..]));
  }

  method DoScanWord(buf: Bytes) returns (r: Result<(Bytes, Bytes), Invalid>)
    ensures r == ScanWord(buf, 0)
  {
    for i := 0 to |buf|
      invariant ScanWord(buf, i) == ScanWord(buf, 0)
    {
      if EndsWord(buf[i]) {
        if i == 0 {
          return Err(Invalid);
        }
        return Ok((buf[..i], buf[i..]));
      }
    }
    r := Ok((buf, []));
  }

  method GetToken(input: Bytes, env: Env) returns (r: Result<(IfToken, Bytes), Invalid>)
    ensures r == NextToken(input, env)
  {
    var buf := DoTrimLeft(input);
    if buf == [] {
      return Ok((End, buf));
    }
    if buf[0] == LPAREN {
      return Ok((ListOpen, buf[1..]));
    }
    if buf[0] == RPAREN {
      return Ok((ListClose, buf[1..]));
    }
    if |buf| >= 3 && buf[..3] == NOT {
      return Ok((Not, buf[3..]));
    }
    if buf[0] == LESS {
      var scanned := ScanUntil(buf, GREATER);
      if scanned.Err? || !env.utf8(scanned.value.0) {
        return Err(Invalid);
      }
      return Ok((Pointy(scanned.value.0), scanned.value.1));
    }
    if buf[0] == LBRACKET {
      var scanned := ScanUntil(buf, RBRACKET);
      if scanned.Err? || !env.utf8(scanned.value.0) {
        return Err(Invalid);
      }
      var etag := ParseETag(scanned.value.0);
      if etag.Err? {
        return Err(Invalid);
      }
      return Ok((Tag(etag.value), scanned.value.1));
    }
    var scanned := DoScanWord(buf);
    if scanned.Err? {
      return Err(Invalid);
    }
    if scanned.value.0 == NOT {
      return Ok((Not, scanned.value.1));
    }
    if !env.utf8(scanned.value.0) {
      return Err(Invalid);
    }
    r := Ok((Word(scanned.value.0), scanned.value.1));
  }

  // ---------------------------------------------------------------------------------------------
  // The state machine

  datatype Machine = Machine(state: IfState, lists: seq<IfList>, current: IfList)

  const EMPTY_LIST := IfList(None, [])

  function Initial(): Machine {
    Machine(Start, [], EMPTY_LIST)
  }

  function Added(list: IfList, negated: bool, item: IfItem): IfList {
    list.(conditions := list.conditions + [IfCondition(negated, item)])
  }

  /** The effect of one token. A resource tag that is no URL ends the parse at once. */
  function Advance(m: Machine, token: IfToken, env: Env): Result<Machine, Invalid> {
    match m.state
    case Start =>
      if token == ListOpen then Ok(m.(state := InList))
      else if token.Pointy? then
        if env.isUrl(token.text) then Ok(m.(state := RTag, current := m.current.(resourceTag := Some(token.text))))
        else Err(Invalid)
      else Ok(m.(state := Bad))
    case RTag =>
      Ok(m.(state := if token == ListOpen then InList else Bad))
    case Bad => Err(Invalid)
    case _ =>
      var negated := m.state == AfterNot;
      match token
      case Not => Ok(m.(state := if negated then Bad else AfterNot))
      case Pointy(s) =>
        if COLON !in s then Ok(m.(state := Bad))
        else Ok(m.(state := InList, current := Added(m.current, negated, StateToken(s))))
      case Word(s) =>
        if COLON !in s then Ok(m.(state := Bad))
        else Ok(m.(state := InList, current := Added(m.current, negated, StateToken(s))))
      case Tag(etag) => Ok(m.(state := InList, current := Added(m.current, negated, EntityTag(etag))))
      case ListClose =>
        if m.current.conditions == [] then Ok(m.(state := Bad))
        else Ok(Machine(Start, m.lists + [m.current], EMPTY_LIST))
      case _ => Ok(m.(state := Bad))
  }

  /** The parse is over when the input ends between lists and there is at least one. */
  predicate Finished(m: Machine, token: IfToken) {
    m.state == Start && token == End && m.lists != []
  }

  /** Parsing from a machine state on. */
  function DecodeFrom(m: Machine, input: Bytes, env: Env): Result<seq<IfList>, Invalid>
    decreases |input|, if m.state == Bad then 0 else 1
  {
    TokenShortensInput(input, env);
    var next := NextToken(input, env);
    if next.Err? then Err(Invalid)
    else if Finished(m, next.value.0) then Ok(m.lists)
    else
      var advanced := Advance(m, next.value.0, env);
      if advanced.Err? then Err(Invalid) else DecodeFrom(advanced.value, next.value.1, env)
  }

  /** `If::decode` on the header's text. */
  method Decode(header: Bytes, env: Env) returns (r: Result<seq<IfList>, Invalid>)
    ensures r == DecodeFrom(Initial(), header, env)
  {
    var m := Initial();
    var input := header;
    while true
      invariant DecodeFrom(m, input, env) == DecodeFrom(Initial(), header, env)
      decreases |input|, if m.state == Bad then 0 else 1
    {
      TokenShortensInput(input, env);
      var next := GetToken(input, env);
      if next.Err? {
        return Err(Invalid);
      }
      if Finished(m, next.value.0) {
        break;
      }
      var advanced := Advance(m, next.value.0, env);
      if advanced.Err? {
        return Err(Invalid);
      }
      m, input := advanced.value, next.value.1;
    }
    r := Ok(m.lists);
  }

  // ---------------------------------------------------------------------------------------------
  // The printer

  function PrintToken(token: IfToken): Bytes {
    match token
    case ListOpen => [LPAREN]
    case ListClose => [RPAREN]
    case Not => NOT
    case Word(s) => s
    case Pointy(s) => [LESS] + s + [GREATER]
    case Tag(etag) => [LBRACKET] + PrintETag(etag) + [RBRACKET]
    case End => []
  }

  ghost predicate IsPadding(s: Bytes) {
    forall n :: 0 <= n < |s| ==> IsWhitespace(s[n])
  }

  /** The tokens, each preceded by its padding, and the last padding at the end. */
  ghost function PrintTokens(tokens: seq<IfToken>, pads: seq<Bytes>): Bytes
    requires |pads| == |tokens| + 1
  {
    if tokens == [] then pads[0]
    else pads[0] + (PrintToken(tokens[0]) + PrintTokens(tokens[1..], pads[1..]))
  }

  function ItemToken(item: IfItem): IfToken {
    match item
    case StateToken(s) => Pointy(s)
    case EntityTag(etag) => Tag(etag)
  }

  function ConditionTokens(c: IfCondition): seq<IfToken> {
    (if c.negated then [Not] else []) + [ItemToken(c.item)]
  }

  function ConditionsTokens(conditions: seq<IfCondition>): seq<IfToken> {
    if conditions == [] then []
    else ConditionsTokens(conditions[..|conditions| - 1]) + ConditionTokens(conditions[|conditions| - 1])
  }

  function TagTokens(list: IfList): seq<IfToken> {
    if list.resourceTag.Some? then [Pointy(list.resourceTag.value)] else []
  }

  function ListTokens(list: IfList): seq<IfToken> {
    TagTokens(list) + [ListOpen] + ConditionsTokens(list.conditions) + [ListClose]
  }

  function HeaderTokens(lists: seq<IfList>): seq<IfToken> {
    if lists == [] then [] else HeaderTokens(lists[..|lists| - 1]) + ListTokens(lists[|lists| - 1])
  }

  /** Text that the tokenizer reads back from between brackets. */
  ghost predicate PlainText(s: Bytes, closing: byte) {
    forall n :: 0 <= n < |s| ==> !IsWhitespace(s[n]) && s[n] != QUOTE && s[n] != closing
  }

  ghost predicate PrintableToken(token: IfToken, env: Env) {
    match token
    case Pointy(s) => PlainText(s, GREATER) && env.utf8(s)
    case Tag(etag) =>
      (forall n :: 0 <= n < |etag.tag| ==>
         !IsWhitespace(etag.tag[n]) && etag.tag[n] != QUOTE) && env.utf8(PrintETag(etag))
    case Word(_) => false
    case End => false
    case _ => true
  }

  ghost predicate PrintableTokens(tokens: seq<IfToken>, env: Env) {
    forall n :: 0 <= n < |tokens| ==> PrintableToken(tokens[n], env)
  }

  /** What a header may contain: non-empty lists of conditions, state tokens with a colon, tags that are URLs. */
  ghost predicate WellFormedList(list: IfList, env: Env) {
    && list.conditions != []
    && (forall n :: 0 <= n < |list.conditions| ==>
          list.conditions[n].item.StateToken? ==> COLON in list.conditions[n].item.token)
    && (list.resourceTag.Some? ==> env.isUrl(list.resourceTag.value))
  }

  ghost predicate WellFormedHeader(lists: seq<IfList>, env: Env) {
    lists != [] && forall n :: 0 <= n < |lists| ==> WellFormedList(lists[n], env)
  }

  // ---------------------------------------------------------------------------------------------
  // The tokenizer reads printed tokens back

  lemma {:induction false} TrimPadding(pad: Bytes, rest: Bytes)
    requires IsPadding(pad) && (rest == [] || !IsWhitespace(rest[0]))
    ensures TrimLeft(pad + rest) == rest
  {
    if pad == [] {
      assert pad + rest == rest;
    } else {
      assert (pad + rest)[1..] == pad[1..] + rest;
      TrimPadding(pad[1..], rest);
    }
  }

  /** Scanning skips a stretch without whitespace, quotes, and (outside quotes) the closing byte. */
  lemma {:induction false} ScanSkips(buf: Bytes, c: byte, i: nat, j: nat, quote: bool)
    requires 1 <= i <= j <= |buf|
    requires forall n :: i <= n < j ==> !IsWhitespace(buf[n]) && buf[n] != QUOTE && (quote || buf[n] != c)
    ensures ScanFrom(buf, c, i, quote) == ScanFrom(buf, c, j, quote)
    decreases j - i
  {
    if i < j { ScanSkips(buf, c, i + 1, j, quote); }
  }

  lemma ScanReadsPlain(open: byte, s: Bytes, c: byte, rest: Bytes)
    requires PlainText(s, c)
    ensures ScanFrom([open] + s + [c] + rest, c, 1, false) == Ok((s, rest))
  {
    var buf := [open] + s + [c] + rest;
    forall n | 1 <= n < |s| + 1 ensures buf[n] == s[n - 1] {}
    ScanSkips(buf, c, 1, |s| + 1, false);
    assert buf[1..|s| + 1] == s && buf[|s| + 2..] == rest;
  }

  lemma ScanReadsETag(e: ETag, rest: Bytes)
    requires forall n :: 0 <= n < |e.tag| ==> !IsWhitespace(e.tag[n]) && e.tag[n] != QUOTE
    ensures ScanFrom([LBRACKET] + PrintETag(e) + [RBRACKET] + rest, RBRACKET, 1, false) == Ok((PrintETag(e), rest))
  {
    var text := PrintETag(e);
    var buf := [LBRACKET] + text + [RBRACKET] + rest;
    var q := if e.weak then 3 else 1;           // position of the opening quote
    var close := q + 1 + |e.tag|;
    assert buf[q] == QUOTE && buf[close] == QUOTE && buf[close + 1] == RBRACKET;
    forall n | q < n < close ensures buf[n] == e.tag[n - q - 1] {}
    ScanSkips(buf, RBRACKET, 1, q, false);
    ScanSkips(buf, RBRACKET, q + 1, close, true);
    assert buf[1..close + 1] == text && buf[close + 2..] == rest;
  }

  lemma ETagRoundTrip(e: ETag)
    requires QUOTE !in e.tag
    ensures ParseETag(PrintETag(e)) == Ok(e)
  {
    var t := PrintETag(e);
    var s := [QUOTE] + e.tag + [QUOTE];
    assert s[1..|s| - 1] == e.tag;
    if e.weak {
      assert t[..2] == WEAK && t[2..] == s;
    } else {
      assert t == s;
      assert t[..2][0] == QUOTE != WEAK[0];
    }
  }

  lemma ReadsTokenBack(pad: Bytes, token: IfToken, rest: Bytes, env: Env)
    requires IsPadding(pad) && PrintableToken(token, env)
    ensures NextToken(pad + (PrintToken(token) + rest), env) == Ok((token, rest))
  {
    var buf := PrintToken(token) + rest;
    TrimPadding(pad, buf);
    match token
    case ListOpen => assert buf[1..] == rest;
    case ListClose => assert buf[1..] == rest;
    case Not => assert buf[..3] == NOT && buf[3..] == rest;
    case Pointy(s) =>
      assert buf == [LESS] + s + [GREATER] + rest;
      ScanReadsPlain(LESS, s, GREATER, rest);
      assert buf[0] == LESS && NOT[0] != LESS;
    case Tag(etag) =>
      assert buf == [LBRACKET] + PrintETag(etag) + [RBRACKET] + rest;
      ScanReadsETag(etag, rest);
      ETagRoundTrip(etag);
      assert buf[0] == LBRACKET && NOT[0] != LBRACKET;
  }

  // ---------------------------------------------------------------------------------------------
  // The state machine on token sequences

  function ParseTokens(m: Machine, tokens: seq<IfToken>, env: Env): Result<seq<IfList>, Invalid>
    decreases |tokens|
  {
    if tokens == [] then Err(Invalid)
    else if Finished(m, tokens[0]) then Ok(m.lists)
    else
      var advanced := Advance(m, tokens[0], env);
      if advanced.Err? then Err(Invalid) else ParseTokens(advanced.value, tokens[1..], env)
  }

  /** Decoding printed tokens runs the state machine on those tokens. */
  lemma {:induction false} DecodePrinted(m: Machine, tokens: seq<IfToken>, pads: seq<Bytes>, env: Env)
    requires |pads| == |tokens| + 1 && PrintableTokens(tokens, env)
    requires forall n :: 0 <= n < |pads| ==> IsPadding(pads[n])
    ensures DecodeFrom(m, PrintTokens(tokens, pads), env) == ParseTokens(m, tokens + [End], env)
    decreases |tokens|
  {
    var input := PrintTokens(tokens, pads);
    if tokens == [] {
      TrimPadding(pads[0], []);
      assert input + [] == input;
      assert NextToken(input, env) == Ok((End, []));
      var advanced := Advance(m, End, env);
      if advanced.Ok? && !Finished(m, End) {
        assert advanced.value.state == Bad;
        assert NextToken([], env) == Ok((End, []));
        assert DecodeFrom(advanced.value, [], env) == Err(Invalid);
      }
      assert ([] + [End])[1..] == [];
    } else {
      var rest := PrintTokens(tokens[1..], pads[1..]);
      assert PrintableToken(tokens[0], env);
      ReadsTokenBack(pads[0], tokens[0], rest, env);
      assert (tokens + [End])[1..] == tokens[1..] + [End];
      var advanced := Advance(m, tokens[0], env);
      if advanced.Ok? {
        DecodePrinted(advanced.value, tokens[1..], pads[1..], env);
      }
    }
  }

  /** The machine after a token sequence that it survives. */
  lemma {:induction false} ParseAppend(m: Machine, a: seq<IfToken>, b: seq<IfToken>, m': Machine, env: Env)
    requires Survives(m, a, env) == Some(m')
    ensures ParseTokens(m, a + b, env) == ParseTokens(m', b, env)
    decreases |a|
  {
    if a == [] {
      assert a + b == b;
    } else {
      assert (a + b)[1..] == a[1..] + b;
      ParseAppend(Advance(m, a[0], env).value, a[1..], b, m', env);
    }
  }

  function Survives(m: Machine, tokens: seq<IfToken>, env: Env): Option<Machine>
    decreases |tokens|
  {
    if tokens == [] then Some(m)
    else if Finished(m, tokens[0]) || Advance(m, tokens[0], env).Err? then None
    else Survives(Advance(m, tokens[0], env).value, tokens[1..], env)
  }

  lemma {:induction false} SurvivesAppend(m: Machine, a: seq<IfToken>, b: seq<IfToken>, env: Env)
    ensures Survives(m, a + b, env) ==
            if Survives(m, a, env).None? then None else Survives(Survives(m, a, env).value, b, env)
    decreases |a|
  {
    if a == [] {
      assert a + b == b;
    } else {
      assert (a + b)[1..] == a[1..] + b;
      if !Finished(m, a[0]) && Advance(m, a[0], env).Ok? {
        SurvivesAppend(Advance(m, a[0], env).value, a[1..], b, env);
      }
    }
  }

  lemma ConditionRead(m: Machine, c: IfCondition, env: Env)
    requires m.state == InList
    requires c.item.StateToken? ==> COLON in c.item.token
    ensures Survives(m, ConditionTokens(c), env)
            == Some(m.(current := m.current.(conditions := m.current.conditions + [c])))
  {
    var item := ItemToken(c.item);
    if c.negated {
      var m1 := m.(state := AfterNot);
      assert Advance(m, Not, env) == Ok(m1);
      assert ConditionTokens(c)[1..] == [item] && [item][1..] == [];
      assert Survives(m1, [item], env) == Survives(Advance(m1, item, env).value, [item][1..], env);
    } else {
      assert ConditionTokens(c) == [item] && [item][1..] == [];
    }
  }

  lemma {:induction false} ConditionsRead(m: Machine, conditions: seq<IfCondition>, env: Env)
    requires m.state == InList && m.current.conditions == []
    requires forall n :: 0 <= n < |conditions| ==> conditions[n].item.StateToken? ==> COLON in conditions[n].item.token
    ensures Survives(m, ConditionsTokens(conditions), env) == Some(m.(current := m.current.(conditions := conditions)))
    decreases |conditions|
  {
    if conditions != [] {
      var init, last := conditions[..|conditions| - 1], conditions[|conditions| - 1];
      ConditionsRead(m, init, env);
      var m1 := m.(current := m.current.(conditions := init));
      ConditionRead(m1, last, env);
      SurvivesAppend(m, ConditionsTokens(init), ConditionTokens(last), env);
      assert init + [last] == conditions;
    }
  }

  lemma SurvivesOne(m: Machine, token: IfToken, env: Env)
    ensures Survives(m, [token], env)
            == if Finished(m, token) || Advance(m, token, env).Err? then None else Some(Advance(m, token, env).value)
  {
    assert [token][1..] == [];
  }

  /** The machine inside a printed list, before its closing parenthesis. */
  lemma OpenListRead(done: seq<IfList>, list: IfList, env: Env)
    requires WellFormedList(list, env)
    ensures Survives(Machine(Start, done, EMPTY_LIST),
                     TagTokens(list) + [ListOpen] + ConditionsTokens(list.conditions), env)
            == Some(Machine(InList, done, list))
  {
    var m0 := Machine(Start, done, EMPTY_LIST);
    var tag := TagTokens(list);
    var tagged := IfList(list.resourceTag, []);
    var m1 := if list.resourceTag.Some? then Machine(RTag, done, tagged) else m0;
    var m2 := Machine(InList, done, tagged);
    if list.resourceTag.Some? {
      SurvivesOne(m0, tag[0], env);
      assert tag == [tag[0]];
    }
    assert Survives(m0, tag, env) == Some(m1);
    SurvivesOne(m1, ListOpen, env);
    SurvivesAppend(m0, tag, [ListOpen], env);
    ConditionsRead(m2, list.conditions, env);
    SurvivesAppend(m0, tag + [ListOpen], ConditionsTokens(list.conditions), env);
  }

  /** One printed list takes the machine from between lists to between lists, with the list added. */
  lemma ListRead(done: seq<IfList>, list: IfList, env: Env)
    requires WellFormedList(list, env)
    ensures Survives(Machine(Start, done, EMPTY_LIST), ListTokens(list), env)
            == Some(Machine(Start, done + [list], EMPTY_LIST))
  {
    var m0 := Machine(Start, done, EMPTY_LIST);
    var m3 := Machine(InList, done, list);
    OpenListRead(done, list, env);
    SurvivesOne(m3, ListClose, env);
    SurvivesAppend(m0, TagTokens(list) + [ListOpen] + ConditionsTokens(list.conditions), [ListClose], env);
  }

  lemma {:induction false} ListsRead(lists: seq<IfList>, env: Env)
    requires forall n :: 0 <= n < |lists| ==> WellFormedList(lists[n], env)
    ensures Survives(Initial(), HeaderTokens(lists), env) == Some(Machine(Start, lists, EMPTY_LIST))
    decreases |lists|
  {
    if lists != [] {
      var init, last := lists[..|lists| - 1], lists[|lists| - 1];
      assert forall n :: 0 <= n < |init| ==> init[n] == lists[n];
      ListsRead(init, env);
      ListRead(init, last, env);
      SurvivesAppend(Initial(), HeaderTokens(init), ListTokens(last), env);
      assert init + [last] == lists;
    }
  }

  /**
   Decoding inverts printing: any well-formed header whose texts can be printed, with any padding
   between its tokens, decodes to itself.
   */
  lemma DecodeInvertsPrint(lists: seq<IfList>, pads: seq<Bytes>, env: Env)
    requires WellFormedHeader(lists, env) && PrintableTokens(HeaderTokens(lists), env)
    requires |pads| == |HeaderTokens(lists)| + 1
    requires forall n :: 0 <= n < |pads| ==> IsPadding(pads[n])
    ensures DecodeFrom(Initial(), PrintTokens(HeaderTokens(lists), pads), env) == Ok(lists)
  {
    DecodePrinted(Initial(), HeaderTokens(lists), pads, env);
    ListsRead(lists, env);
    ParseAppend(Initial(), HeaderTokens(lists), [End], Machine(Start, lists, EMPTY_LIST), env);
  }

  // ---------------------------------------------------------------------------------------------
  // Whatever is accepted reads as the printed form of the result

  /** State tokens may also be written without angle brackets. */
  function Canonical(token: IfToken): IfToken {
    if token.Word? then Pointy(token.word) else token
  }

  /** The tokens up to the end of the input, brackets around state tokens supplied; `None` if some text is no token. */
  function Lexed(input: Bytes, env: Env): Option<seq<IfToken>>
    decreases |input|
  {
    TokenShortensInput(input, env);
    var next := NextToken(input, env);
    if next.Err? then None
    else if next.value.0 == End then Some([])
    else
      var rest := Lexed(next.value.1, env);
      if rest.None? then None else Some([Canonical(next.value.0)] + rest.value)
  }

  /** A `Not` right before the end of a list negates nothing, and the parser forgets it. */
  function WithoutDanglingNots(tokens: seq<IfToken>): seq<IfToken> {
    if tokens == [] then [] else KeptBefore(tokens[0], tokens[1..], WithoutDanglingNots(tokens[1..]))
  }

  function KeptBefore(t: IfToken, rest: seq<IfToken>, kept: seq<IfToken>): seq<IfToken> {
    if t == Not && rest != [] && rest[0] == ListClose then kept else [t] + kept
  }

  lemma DropCons(t: IfToken, rest: seq<IfToken>)
    ensures WithoutDanglingNots([t] + rest) == KeptBefore(t, rest, WithoutDanglingNots(rest))
  {
    assert ([t] + rest)[1..] == rest;
  }

  ghost predicate NoDanglingNot(tokens: seq<IfToken>) {
    forall n :: 0 <= n < |tokens| - 1 ==> !(tokens[n] == Not && tokens[n + 1] == ListClose)
  }

  lemma {:induction false} DroppingChangesIffDangling(tokens: seq<IfToken>)
    ensures |WithoutDanglingNots(tokens)| <= |tokens|
    ensures WithoutDanglingNots(tokens) == tokens <==> NoDanglingNot(tokens)
    decreases |tokens|
  {
    if tokens != [] {
      var rest := tokens[1..];
      DroppingChangesIffDangling(rest);
      if |tokens| > 1 && tokens[0] == Not && tokens[1] == ListClose {
        assert |WithoutDanglingNots(tokens)| < |tokens|;
      } else {
        assert tokens == [tokens[0]] + rest;
        assert WithoutDanglingNots(tokens)[1..] == WithoutDanglingNots(rest);
        assert NoDanglingNot(rest) ==> NoDanglingNot(tokens) by {
          if NoDanglingNot(rest) {
            forall n | 0 <= n < |tokens| - 1 ensures !(tokens[n] == Not && tokens[n + 1] == ListClose) {
              if n > 0 { assert tokens[n] == rest[n - 1] && tokens[n + 1] == rest[n]; }
            }
          }
        }
        assert NoDanglingNot(tokens) ==> NoDanglingNot(rest) by {
          if NoDanglingNot(tokens) {
            forall n | 0 <= n < |rest| - 1 ensures !(rest[n] == Not && rest[n + 1] == ListClose) {
              assert rest[n] == tokens[n + 1] && rest[n + 1] == tokens[n + 2];
            }
          }
        }
      }
    }
  }

  /** What the machine has read so far, printed, up to a `Not` still waiting for its condition. */
  function Written(m: Machine): seq<IfToken> {
    HeaderTokens(m.lists) + WrittenHere(m)
  }

  function WrittenHere(m: Machine): seq<IfToken> {
    match m.state
    case Start => []
    case RTag => TagTokens(m.current)
    case Bad => []
    case _ => TagTokens(m.current) + [ListOpen] + ConditionsTokens(m.current.conditions)
  }

  function Pending(m: Machine): seq<IfToken> {
    if m.state == AfterNot then [Not] else []
  }

  ghost predicate Consistent(m: Machine, env: Env) {
    && (m.state == Start ==> m.current == EMPTY_LIST)
    && (m.state == RTag ==> m.current.resourceTag.Some? && m.current.conditions == [])
    && (m.current.resourceTag.Some? ==> env.isUrl(m.current.resourceTag.value))
    && (forall n :: 0 <= n < |m.current.conditions| ==>
          m.current.conditions[n].item.StateToken? ==> COLON in m.current.conditions[n].item.token)
    && (forall n :: 0 <= n < |m.lists| ==> WellFormedList(m.lists[n], env))
  }

  /** The next machine has written what was pending and the token, unless the token ends a list or is pending itself. */
  ghost predicate AdvanceWrote(m: Machine, token: IfToken, m': Machine, env: Env) {
    && Consistent(m', env)
    && if m'.state == AfterNot then Written(m') == Written(m) && token == Not && m.state != AfterNot
       else if token == ListClose then Written(m') == Written(m) + [ListClose]
       else token != Not && Written(m') == Written(m) + Pending(m) + [Canonical(token)]
  }

  lemma AdvanceOutside(m: Machine, token: IfToken, m': Machine, env: Env)
    requires Consistent(m, env) && (m.state == Start || m.state == RTag)
    requires Advance(m, token, env) == Ok(m') && m'.state != Bad
    ensures AdvanceWrote(m, token, m', env)
  {
    assert m'.lists == m.lists && m'.current.conditions == [];
    if token == ListOpen {
      assert WrittenHere(m') == WrittenHere(m) + [ListOpen];
    } else {
      assert WrittenHere(m') == WrittenHere(m) + [token];
    }
    assert Written(m') == Written(m) + [] + [Canonical(token)];
  }

  lemma ConditionAdded(m: Machine, token: IfToken, m': Machine, env: Env)
    requires Consistent(m, env) && (m.state == InList || m.state == AfterNot) && token != ListClose && token != Not
    requires Advance(m, token, env) == Ok(m') && m'.state != Bad
    ensures m'.state == InList && Consistent(m', env)
    ensures m'.lists == m.lists && m'.current.resourceTag == m.current.resourceTag
    ensures var cs := m'.current.conditions;
            && |cs| > 0 && cs[..|cs| - 1] == m.current.conditions
            && ConditionTokens(cs[|cs| - 1]) == Pending(m) + [Canonical(token)]
  {
    var cs := m'.current.conditions;
    assert cs[..|cs| - 1] == m.current.conditions;
    assert ItemToken(cs[|cs| - 1].item) == Canonical(token);
  }

  lemma ConditionWritten(m: Machine, token: IfToken, m': Machine, env: Env)
    requires Consistent(m, env) && (m.state == InList || m.state == AfterNot) && token != ListClose && token != Not
    requires Advance(m, token, env) == Ok(m') && m'.state != Bad
    ensures Written(m') == Written(m) + Pending(m) + [Canonical(token)]
  {
    ConditionAdded(m, token, m', env);
    var open := TagTokens(m.current) + [ListOpen];
    var cs, last := m'.current.conditions, Pending(m) + [Canonical(token)];
    assert ConditionsTokens(cs) == ConditionsTokens(m.current.conditions) + last;
    assert WrittenHere(m') == WrittenHere(m) + last;
    assert Written(m') == Written(m) + last;
  }

  lemma AdvanceCondition(m: Machine, token: IfToken, m': Machine, env: Env)
    requires Consistent(m, env) && (m.state == InList || m.state == AfterNot) && token != ListClose
    requires Advance(m, token, env) == Ok(m') && m'.state != Bad
    ensures AdvanceWrote(m, token, m', env)
  {
    if token == Not {
      assert m' == m.(state := AfterNot);
      assert WrittenHere(m') == WrittenHere(m);
    } else {
      ConditionAdded(m, token, m', env);
      ConditionWritten(m, token, m', env);
    }
  }

  lemma AdvanceClose(m: Machine, m': Machine, env: Env)
    requires Consistent(m, env) && (m.state == InList || m.state == AfterNot)
    requires Advance(m, ListClose, env) == Ok(m') && m'.state != Bad
    ensures AdvanceWrote(m, ListClose, m', env)
  {
    assert m'.lists == m.lists + [m.current] && m'.lists[..|m'.lists| - 1] == m.lists;
    assert HeaderTokens(m'.lists) == HeaderTokens(m.lists) + ListTokens(m.current);
    assert Written(m') == Written(m) + [ListClose];
  }

  lemma BadNeverAccepts(m: Machine, input: Bytes, env: Env)
    requires m.state == Bad
    ensures DecodeFrom(m, input, env).Err?
  {}

  lemma DropStep(pending: bool, t: IfToken, rest: seq<IfToken>)
    requires t != Not
    ensures WithoutDanglingNots((if pending then [Not] else []) + ([t] + rest))
            == (if pending && t != ListClose then [Not] else []) + [t] + WithoutDanglingNots(rest)
  {
    DropCons(t, rest);
    if pending {
      DropCons(Not, [t] + rest);
      assert ([t] + rest)[0] == t;
    } else {
      assert [] + ([t] + rest) == [t] + rest;
    }
  }

  /** Dropping dangling `Not`s, across one token. */
  lemma DropAcrossToken(m: Machine, token: IfToken, m': Machine, rest: seq<IfToken>, env: Env)
    requires m.state == AfterNot ==> token != Not
    requires AdvanceWrote(m, token, m', env)
    ensures Written(m) + WithoutDanglingNots(Pending(m) + ([Canonical(token)] + rest))
            == Written(m') + WithoutDanglingNots(Pending(m') + rest)
  {
    if m'.state == AfterNot {
      assert Pending(m) + ([Canonical(token)] + rest) == Pending(m') + rest;
    } else {
      DropStep(m.state == AfterNot, Canonical(token), rest);
      assert Pending(m') + rest == rest;
      Regroup(Written(m), Pending(m), [Canonical(token)], WithoutDanglingNots(rest));
    }
  }

  lemma Regroup(a: seq<IfToken>, b: seq<IfToken>, c: seq<IfToken>, d: seq<IfToken>)
    ensures a + (b + c + d) == a + b + c + d
    ensures a + ([] + c + d) == a + c + d
  {}

  lemma AdvanceWrites(m: Machine, token: IfToken, m': Machine, env: Env)
    requires Consistent(m, env)
    requires Advance(m, token, env) == Ok(m') && m'.state != Bad
    ensures AdvanceWrote(m, token, m', env)
    ensures m.state == AfterNot ==> token != Not
  {
    if m.state == Start || m.state == RTag {
      AdvanceOutside(m, token, m', env);
    } else if token == ListClose {
      AdvanceClose(m, m', env);
    } else {
      AdvanceCondition(m, token, m', env);
    }
  }

  lemma {:induction false} AcceptedIsWritten(m: Machine, input: Bytes, env: Env)
    requires Consistent(m, env)
    requires DecodeFrom(m, input, env).Ok?
    ensures WellFormedHeader(DecodeFrom(m, input, env).value, env)
    ensures Lexed(input, env).Some?
    ensures Written(m) + WithoutDanglingNots(Pending(m) + Lexed(input, env).value)
            == HeaderTokens(DecodeFrom(m, input, env).value)
    decreases |input|
  {
    TokenShortensInput(input, env);
    var (token, tail) := NextToken(input, env).value;
    if Finished(m, token) {
      assert Pending(m) + [] == [];
      assert Written(m) + [] == HeaderTokens(m.lists);
    } else {
      var m' := Advance(m, token, env).value;
      if m'.state == Bad { BadNeverAccepts(m', tail, env); }
      AdvanceWrites(m, token, m', env);
      EndIsBad(m, env);
      AcceptedIsWritten(m', tail, env);
      DropAcrossToken(m, token, m', Lexed(tail, env).value, env);
    }
  }

  lemma EndIsBad(m: Machine, env: Env)
    ensures !Finished(m, End) ==> Advance(m, End, env).Err? || Advance(m, End, env).value.state == Bad
  {}

  /**
   An accepted header consists of the tokens of the well-formed lists it decodes to, except that
   the parser also accepts, and forgets, a `Not` right before a closing parenthesis.
   */
  lemma AcceptedHeaderIsItsPrint(header: Bytes, env: Env)
    requires DecodeFrom(Initial(), header, env).Ok?
    ensures var lists := DecodeFrom(Initial(), header, env).value;
            && WellFormedHeader(lists, env)
            && Lexed(header, env).Some?
            && WithoutDanglingNots(Lexed(header, env).value) == HeaderTokens(lists)
            && (Lexed(header, env).value == HeaderTokens(lists) <==> NoDanglingNot(Lexed(header, env).value))
  {
    AcceptedIsWritten(Initial(), header, env);
    var tokens := Lexed(header, env).value;
    assert Written(Initial()) == [] && Pending(Initial()) + tokens == tokens;
    DroppingChangesIffDangling(tokens);
  }

  /** A list printed with a `Not` before its closing parenthesis, as in `(<a:b> Not)`. */
  ghost function DanglingTokens(list: IfList): seq<IfToken> {
    TagTokens(list) + [ListOpen] + ConditionsTokens(list.conditions) + ([Not] + [ListClose])
  }

  /** Such a header is accepted, and decodes to the list without the `Not`. */
  lemma DanglingNotIsForgotten(list: IfList, pads: seq<Bytes>, env: Env)
    requires WellFormedList(list, env) && PrintableTokens(DanglingTokens(list), env)
    requires |pads| == |DanglingTokens(list)| + 1
    requires forall n :: 0 <= n < |pads| ==> IsPadding(pads[n])
    ensures !NoDanglingNot(DanglingTokens(list))
    ensures DecodeFrom(Initial(), PrintTokens(DanglingTokens(list), pads), env) == Ok([list])
  {
    var tokens := DanglingTokens(list);
    assert tokens[|tokens| - 2] == Not && tokens[|tokens| - 1] == ListClose;
    DecodePrinted(Initial(), tokens, pads, env);
    OpenListRead([], list, env);
    var open := Machine(InList, [], list);
    var negating := Machine(AfterNot, [], list);
    var done := Machine(Start, [] + [list], EMPTY_LIST);
    SurvivesOne(open, Not, env);
    SurvivesOne(negating, ListClose, env);
    SurvivesAppend(open, [Not], [ListClose], env);
    SurvivesAppend(Initial(), TagTokens(list) + [ListOpen] + ConditionsTokens(list.conditions), [Not] + [ListClose],
                   env);
    ParseAppend(Initial(), tokens, [End], done, env);
    assert [] + [list] == [list];
  }

  /** The tokens of a tagged list followed by an untagged one. */
  ghost function TaggedThenUntagged(tag: Bytes, a: seq<IfCondition>, b: seq<IfCondition>): seq<IfToken> {
    [Pointy(tag), ListOpen] + ConditionsTokens(a) + [ListClose] + ([ListOpen] + ConditionsTokens(b) + [ListClose])
  }

  lemma HeaderTokensOneMore(lists: seq<IfList>, l: IfList)
    ensures HeaderTokens(lists + [l]) == HeaderTokens(lists) + ListTokens(l)
  {
    var all := lists + [l];
    assert all[..|all| - 1] == lists;
  }

  lemma TokensAssociative(a: seq<IfToken>, b: seq<IfToken>, c: seq<IfToken>)
    ensures (a + b) + c == a + (b + c)
  {}

  lemma {:induction false} HeaderTokensAppend(x: seq<IfList>, y: seq<IfList>)
    ensures HeaderTokens(x + y) == HeaderTokens(x) + HeaderTokens(y)
    decreases |y|
  {
    if y == [] {
      assert x + y == x;
    } else {
      var init, last := y[..|y| - 1], y[|y| - 1];
      assert y == init + [last] && x + y == (x + init) + [last];
      HeaderTokensAppend(x, init);
      HeaderTokensOneMore(x + init, last);
      HeaderTokensOneMore(init, last);
      TokensAssociative(HeaderTokens(x), HeaderTokens(init), ListTokens(last));
    }
  }

  lemma TwoListsTokens(tag: Bytes, a: seq<IfCondition>, b: seq<IfCondition>)
    ensures HeaderTokens([IfList(Some(tag), a), IfList(None, b)]) == TaggedThenUntagged(tag, a, b)
  {
    var first, second := IfList(Some(tag), a), IfList(None, b);
    assert [first, second][..1] == [first] && [first][..0] == [];
    assert HeaderTokens([first]) == ListTokens(first);
    assert HeaderTokens([first, second]) == ListTokens(first) + ListTokens(second);
    assert ListTokens(first) == [Pointy(tag), ListOpen] + ConditionsTokens(a) + [ListClose];
    assert ListTokens(second) == [ListOpen] + ConditionsTokens(b) + [ListClose];
  }

  /**
   A resource tag applies to one list only: wherever in a header an untagged list comes after a tagged one,
   it is about the request URL again.
   */
  lemma TagBindsOneList(before: seq<IfList>, tag: Bytes, a: seq<IfCondition>, b: seq<IfCondition>, after: seq<IfList>,
                        tokens: seq<IfToken>, pads: seq<Bytes>, env: Env)
    requires WellFormedHeader(before + [IfList(Some(tag), a), IfList(None, b)] + after, env)
    requires tokens == HeaderTokens(before) + TaggedThenUntagged(tag, a, b) + HeaderTokens(after)
    requires PrintableTokens(tokens, env) && |pads| == |tokens| + 1
    requires forall n :: 0 <= n < |pads| ==> IsPadding(pads[n])
    ensures DecodeFrom(Initial(), PrintTokens(tokens, pads), env)
            == Ok(before + [IfList(Some(tag), a), IfList(None, b)] + after)
  {
    var two := [IfList(Some(tag), a), IfList(None, b)];
    TwoListsTokens(tag, a, b);
    HeaderTokensAppend(before, two);
    HeaderTokensAppend(before + two, after);
    DecodeInvertsPrint(before + two + after, pads, env);
  }
}
