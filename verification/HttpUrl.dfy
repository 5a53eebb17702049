/**
 * http_parser_parse_url: a first pass that classifies every byte by a state machine, and a
 * second pass over the authority that separates user information, host and port.
 */
module HttpUrl {
  import opened Bytes
  import opened Wrappers

  datatype Field = Schema | Host | Port | Path | Query | Fragment | Userinfo

  datatype State =
    | Dead
    | SpacesBeforeUrl
    | InSchema
    | SchemaSlash
    | SchemaSlashSlash
    | ServerStart
    | Server
    | ServerWithAt
    | InPath
    | QueryStart
    | InQuery
    | FragmentStart
    | InFragment

  datatype HostState =
    | HostDead
    | UserinfoStart
    | InUserinfo
    | HostStart
    | V6Start
    | InHost
    | InV6
    | V6End
    | V6ZoneStart
    | InV6Zone
    | PortStart
    | InPort

  const COLON: byte := 58
  const SLASH: byte := 47
  const AT: byte := 64
  const LBRACKET: byte := 91
  const RBRACKET: byte := 93
  const QUESTION: byte := 63
  const HASH: byte := 35
  const PERCENT: byte := 37

  // ----- Character classes, in strict mode -----

  predicate IsMark(c: byte) { c == 45 || c == 95 || c == 46 || c == 33 || c == 126 || 39 <= c <= 42 }

  predicate IsUserinfoChar(c: byte) {
    || IsAlphaNum(c) || IsMark(c)
    || c == PERCENT || c == 59 || c == COLON || c == 38 || c == 61 || c == 43 || c == 36 || c == 44
  }

  predicate IsUrlChar(c: byte) { 33 <= c <= 126 && c != HASH && c != QUESTION }

  predicate IsHostChar(c: byte) { IsAlphaNum(c) || c == 46 || c == 45 }

  predicate IsZoneChar(c: byte) { IsAlphaNum(c) || c == PERCENT || c == 46 || c == 45 || c == 95 || c == 126 }

  // ----- The two state machines -----

  function UrlChar(s: State, ch: byte): State {
    if ch == SP || ch == CR || ch == LF || ch == 9 || ch == 12 then Dead
    else
      match s
      case SpacesBeforeUrl =>
        if ch == SLASH || ch == 42 then InPath else if IsAlpha(ch) then InSchema else Dead
      case InSchema => if IsAlpha(ch) then InSchema else if ch == COLON then SchemaSlash else Dead
      case SchemaSlash => if ch == SLASH then SchemaSlashSlash else Dead
      case SchemaSlashSlash => if ch == SLASH then ServerStart else Dead
      case ServerWithAt => if ch == AT then Dead else ServerChar(ch)
      case ServerStart => ServerChar(ch)
      case Server => ServerChar(ch)
      case InPath =>
        if IsUrlChar(ch) then InPath
        else if ch == QUESTION then QueryStart else if ch == HASH then FragmentStart else Dead
      case QueryStart => QueryChar(ch)
      case InQuery => QueryChar(ch)
      case FragmentStart =>
        if IsUrlChar(ch) || ch == QUESTION then InFragment else if ch == HASH then FragmentStart else Dead
      case InFragment => if IsUrlChar(ch) || ch == QUESTION || ch == HASH then InFragment else Dead
      case Dead => Dead
  }

  function ServerChar(ch: byte): State {
    if ch == SLASH then InPath
    else if ch == QUESTION then QueryStart
    else if ch == AT then ServerWithAt
    else if IsUserinfoChar(ch) || ch == LBRACKET || ch == RBRACKET then Server
    else Dead
  }

  function QueryChar(ch: byte): State {
    if IsUrlChar(ch) || ch == QUESTION then InQuery else if ch == HASH then FragmentStart else Dead
  }

  function HostChar(s: HostState, ch: byte): HostState {
    match s
    case UserinfoStart => if ch == AT then HostStart else if IsUserinfoChar(ch) then InUserinfo else HostDead
    case InUserinfo => if ch == AT then HostStart else if IsUserinfoChar(ch) then InUserinfo else HostDead
    case HostStart => if ch == LBRACKET then V6Start else if IsHostChar(ch) then InHost else HostDead
    case InHost => if IsHostChar(ch) then InHost else if ch == COLON then PortStart else HostDead
    case V6End => if ch == COLON then PortStart else HostDead
    case InV6 =>
      if ch == RBRACKET then V6End
      else if IsHex(ch) || ch == COLON || ch == 46 then InV6
      else if ch == PERCENT then V6ZoneStart
      else HostDead
    case V6Start => if IsHex(ch) || ch == COLON || ch == 46 then InV6 else HostDead
    case InV6Zone => if ch == RBRACKET then V6End else if IsZoneChar(ch) then InV6Zone else HostDead
    case V6ZoneStart => if IsZoneChar(ch) then InV6Zone else HostDead
    case InPort => if IsDigit(ch) then InPort else HostDead
    case PortStart => if IsDigit(ch) then InPort else HostDead
    case HostDead => HostDead
  }

  // ----- Which field a byte belongs to, by the state it leads to -----

  function FieldOf(s: State): Option<Field> {
    match s
    case InSchema => Some(Schema)
    case Server => Some(Host)
    case ServerWithAt => Some(Host)
    case InPath => Some(Path)
    case InQuery => Some(Query)
    case InFragment => Some(Fragment)
    case _ => None
  }

  function HostFieldOf(s: HostState): Option<Field> {
    match s
    case InUserinfo => Some(Userinfo)
    case InHost => Some(Host)
    case InV6 => Some(Host)
    case V6ZoneStart => Some(Host)
    case InV6Zone => Some(Host)
    case InPort => Some(Port)
    case _ => None
  }

  function StartState(isConnect: bool): State { if isConnect then ServerStart else SpacesBeforeUrl }

  /** The state after the first i bytes. */
  function StateAt(buf: seq<byte>, isConnect: bool, i: nat): State
    requires i <= |buf|
  {
    if i == 0 then StartState(isConnect) else UrlChar(StateAt(buf, isConnect, i - 1), buf[i - 1])
  }

  /** The state of the second pass after the bytes from lo to i. */
  function HostStateAt(buf: seq<byte>, foundAt: bool, lo: nat, i: nat): HostState
    requires lo <= i <= |buf|
    decreases i
  {
    if i == lo then if foundAt then UserinfoStart else HostStart
    else HostChar(HostStateAt(buf, foundAt, lo, i - 1), buf[i - 1])
  }

  /** How far along a state is; no step goes back, and delimiters have ranks of their own. */
  function Rank(s: State): nat {
    match s
    case Dead => 99
    case SpacesBeforeUrl => 0
    case InSchema => 1
    case SchemaSlash => 2
    case SchemaSlashSlash => 3
    case ServerStart => 4
    case Server => 5
    case ServerWithAt => 5
    case InPath => 6
    case QueryStart => 7
    case InQuery => 8
    case FragmentStart => 9
    case InFragment => 10
  }

  function FieldRank(f: Field): nat {
    match f
    case Schema => 1
    case Host => 5
    case Path => 6
    case Query => 8
    case Fragment => 10
    case _ => 0
  }

  function HostRank(s: HostState): nat {
    match s
    case HostDead => 99
    case UserinfoStart => 0
    case InUserinfo => 1
    case HostStart => 2
    case V6Start => 3
    case InHost => 4
    case InV6 => 4
    case V6ZoneStart => 4
    case InV6Zone => 4
    case V6End => 5
    case PortStart => 6
    case InPort => 7
  }

  lemma UrlCharAdvances(s: State, ch: byte)
    ensures var t := UrlChar(s, ch);
            && Rank(s) <= Rank(t)
            && (FieldOf(t).Some? ==> Rank(t) == FieldRank(FieldOf(t).value))
            && (t != Dead && FieldOf(t) == None ==> IsDelimiter(ch) && (forall f :: FieldRank(f) != Rank(t)))
            && (t == Dead ==> FieldOf(t) == None)
  {
  }

  lemma HostCharAdvances(s: HostState, ch: byte)
    ensures var t := HostChar(s, ch);
            && HostRank(s) <= HostRank(t)
            && (t != HostDead && HostFieldOf(t) == None ==> IsDelimiter(ch))
            && (HostFieldOf(t) == Some(Userinfo) ==> s == InUserinfo || s == UserinfoStart)
            && (t == InHost ==> s == InHost || s == HostStart)
            && (t == InV6 ==> s == InV6 || s == V6Start)
            && (t == V6ZoneStart || t == InV6Zone ==> s == InV6 || s == V6ZoneStart || s == InV6Zone)
            && (t == InPort ==> IsDigit(ch) && (s == InPort || s == PortStart))
            && (HostRank(t) >= 4 && HostRank(s) < 4 && t != HostDead ==> t == InHost || t == InV6)
            && (HostRank(t) >= 1 && HostRank(s) < 1 && t != HostDead ==> t == InUserinfo || t == HostStart)
  {
  }

  predicate IsDelimiter(ch: byte) {
    ch == COLON || ch == SLASH || ch == AT || ch == LBRACKET || ch == RBRACKET || ch == QUESTION || ch == HASH
  }

  /** The field of byte i in the first pass. */
  function Label(buf: seq<byte>, isConnect: bool, i: nat): Option<Field>
    requires i < |buf|
  {
    FieldOf(StateAt(buf, isConnect, i + 1))
  }

  /** The field of byte i in the second pass over the bytes from lo on. */
  function HostLabel(buf: seq<byte>, foundAt: bool, lo: nat, i: nat): Option<Field>
    requires lo <= i < |buf|
  {
    HostFieldOf(HostStateAt(buf, foundAt, lo, i + 1))
  }

  datatype Span = Span(off: nat, len: nat)

  const TWO16 := 0x1_0000

  /** A span as the 16-bit members hold it. */
  type Stored = x: Span | x.off < TWO16 && x.len < TWO16 witness Span(0, 0)

  function Low16(x: Span): Stored { Span(x.off % TWO16, x.len % TWO16) }

  predicate FirstPassField(f: Field) { f != Port && f != Userinfo }

  /** The spans reported for the fields in fieldSet; the others hold whatever they held. */
  datatype Parts = Parts(fieldSet: set<Field>, fieldData: map<Field, Span>) {
    ghost predicate Total() { forall f: Field :: f in fieldData }

    /** Byte i is reported as part of field f. */
    predicate Covers(f: Field, i: int) {
      f in fieldSet && f in fieldData && fieldData[f].off <= i < fieldData[f].off + fieldData[f].len
    }

    /** What the 16-bit members hold of it. */
    function Cut(): Parts { Parts(fieldSet, map f | f in fieldData :: Low16(fieldData[f])) }

    function End(f: Field): nat
      requires f in fieldData
    {
      fieldData[f].off + fieldData[f].len
    }

    /** The span of f begins at p with one byte. */
    function Begin(f: Field, p: nat): Parts {
      Parts(fieldSet + {f}, fieldData[f := Span(p, 1)])
    }

    /** The span of f grows by one byte. */
    function Grow(f: Field): Parts
      requires f in fieldData
    {
      this.(fieldData := fieldData[f := Span(fieldData[f].off, fieldData[f].len + 1)])
    }
  }

  /** The spans found so far are exactly the labels of the first p bytes. */
  ghost predicate FirstPass(u: Parts, buf: seq<byte>, isConnect: bool, p: nat, oldUf: Option<Field>)
    requires p <= |buf|
  {
    && u.Total()
    && (forall f, i | 0 <= i < p :: u.Covers(f, i) <==> Label(buf, isConnect, i) == Some(f))
    && (forall f | f in u.fieldSet ::
          && FirstPassField(f) && 0 < u.fieldData[f].len && u.End(f) <= p
          && FieldRank(f) <= Rank(StateAt(buf, isConnect, p))
          && (FieldRank(f) == Rank(StateAt(buf, isConnect, p)) ==> oldUf == Some(f) && u.End(f) == p))
    && (oldUf.Some? ==> oldUf.value in u.fieldSet)
  }

  /** One byte of the first pass that belongs to a field keeps the spans exact. */
  lemma FieldByte(u: Parts, buf: seq<byte>, isConnect: bool, p: nat, oldUf: Option<Field>, uf: Field)
    requires p < |buf| && FirstPass(u, buf, isConnect, p, oldUf)
    requires Label(buf, isConnect, p) == Some(uf)
    ensures u.Total()
    ensures FirstPass(if oldUf == Some(uf) then u.Grow(uf) else u.Begin(uf, p), buf, isConnect, p + 1, Some(uf))
  {
    hide UrlChar, StateAt, FieldOf, Rank;
    var s, t := StateAt(buf, isConnect, p), StateAt(buf, isConnect, p + 1);
    StateStep(buf, isConnect, p);
    UrlCharAdvances(s, buf[p]);
    var v := if oldUf == Some(uf) then u.Grow(uf) else u.Begin(uf, p);
    FieldRankIsInjective();
    OnlyFirstPassFields(t);
    forall f, i | 0 <= i < p + 1
      ensures v.Covers(f, i) <==> Label(buf, isConnect, i) == Some(f)
    {
      if i < p { assert u.Covers(f, i) <==> Label(buf, isConnect, i) == Some(f); }
    }
  }

  lemma NothingYet(u: Parts, buf: seq<byte>, isConnect: bool)
    requires u.Total() && u.fieldSet == {}
    ensures FirstPass(u, buf, isConnect, 0, None)
  {
  }

  lemma StateStep(buf: seq<byte>, isConnect: bool, p: nat)
    requires p < |buf|
    ensures StateAt(buf, isConnect, p + 1) == UrlChar(StateAt(buf, isConnect, p), buf[p])
  {
  }

  lemma FieldRankIsInjective()
    ensures forall f, g :: FirstPassField(f) && FirstPassField(g) && FieldRank(f) == FieldRank(g) ==> f == g
  {
  }

  lemma OnlyFirstPassFields(s: State)
    ensures FieldOf(s).Some? ==> FirstPassField(FieldOf(s).value)
  {
  }

  /** A delimiter of the first pass leaves the spans as they are. */
  lemma DelimiterByte(u: Parts, buf: seq<byte>, isConnect: bool, p: nat, oldUf: Option<Field>)
    requires p < |buf| && FirstPass(u, buf, isConnect, p, oldUf)
    requires Label(buf, isConnect, p) == None && StateAt(buf, isConnect, p + 1) != Dead
    ensures FirstPass(u, buf, isConnect, p + 1, oldUf)
  {
    hide UrlChar, StateAt, FieldOf, Rank;
    StateStep(buf, isConnect, p);
    UrlCharAdvances(StateAt(buf, isConnect, p), buf[p]);
  }

  // ----- The second pass -----

  predicate HostField(f: Field) { f == Host || f == Port || f == Userinfo }

  /** Each byte from lo to p is covered by exactly the field it is labelled with. */
  ghost predicate SplitExactly(u: Parts, buf: seq<byte>, foundAt: bool, lo: nat, p: nat)
    requires lo <= p <= |buf|
  {
    forall f, i | HostField(f) && lo <= i < p :: u.Covers(f, i) <==> HostLabel(buf, foundAt, lo, i) == Some(f)
  }

  /** The spans of the second pass lie in the bytes passed, and the current field ends at p. */
  ghost predicate SplitSpans(u: Parts, s: HostState, lo: nat, p: nat) {
    && u.Total() && Host in u.fieldSet
    && (forall f | HostField(f) && f in u.fieldSet ::
          && lo <= u.fieldData[f].off && u.End(f) <= p
          && (f != Host ==> 0 < u.fieldData[f].len))
    && (0 < u.fieldData[Host].len <==> HostRank(s) >= 4)
    && (forall f :: HostFieldOf(s) == Some(f) ==> f in u.fieldSet && u.End(f) == p)
    && (Userinfo in u.fieldSet ==> HostRank(s) >= 1)
    && (Port in u.fieldSet <==> s == InPort)
  }

  /** What one byte of the authority does to the spans. */
  function HostByte(u: Parts, s: HostState, t: HostState, p: nat): Parts
    requires forall f :: HostFieldOf(t) == Some(f) ==> f in u.fieldData
  {
    match HostFieldOf(t)
    case None => u
    case Some(f) => if Grows(s, t) then u.Grow(f) else u.Begin(f, p)
  }

  /** The byte that leads from s to t continues a span, instead of beginning one. */
  predicate Grows(s: HostState, t: HostState) { s == t || t == V6ZoneStart || t == InV6Zone }

  lemma HostByteSpans(u: Parts, s: HostState, ch: byte, lo: nat, p: nat)
    requires lo <= p && SplitSpans(u, s, lo, p) && s != HostDead
    requires HostChar(s, ch) != HostDead
    ensures var t := HostChar(s, ch);
            && (forall f :: HostFieldOf(t) == Some(f) ==>
                  f in u.fieldData)
            && SplitSpans(HostByte(u, s, t, p), t, lo, p + 1)
            && HostByte(u, s, t, p).Total() && Host in u.fieldSet
            && ((t == InHost || t == InV6) && s != t ==> u.fieldData[Host].len == 0)
  {
    hide HostChar;
    var t := HostChar(s, ch);
    HostCharAdvances(s, ch);
    if HostFieldOf(t) == Some(Host) {
      HostSpan(u, s, t, lo, p);
    } else if HostFieldOf(t).Some? {
      OtherSpan(u, s, t, lo, p);
    }
  }

  /** What HostCharAdvances says about a step to a field byte. */
  predicate Steps(s: HostState, t: HostState) {
    && s != HostDead && t != HostDead && HostRank(s) <= HostRank(t)
    && (t == InUserinfo ==> s == InUserinfo || s == UserinfoStart)
    && (t == InHost ==> s == InHost || s == HostStart)
    && (t == InV6 ==> s == InV6 || s == V6Start)
    && (t == V6ZoneStart || t == InV6Zone ==> s == InV6 || s == V6ZoneStart || s == InV6Zone)
    && (t == InPort ==> s == InPort || s == PortStart)
  }

  lemma HostSpan(u: Parts, s: HostState, t: HostState, lo: nat, p: nat)
    requires lo <= p && SplitSpans(u, s, lo, p) && Steps(s, t) && HostFieldOf(t) == Some(Host)
    ensures Host in u.fieldData
    ensures SplitSpans(HostByte(u, s, t, p), t, lo, p + 1)
  {
  }

  lemma OtherSpan(u: Parts, s: HostState, t: HostState, lo: nat, p: nat)
    requires lo <= p && SplitSpans(u, s, lo, p) && Steps(s, t)
    requires HostFieldOf(t) == Some(Port) || HostFieldOf(t) == Some(Userinfo)
    ensures forall f :: HostFieldOf(t) == Some(f) ==> f in u.fieldData
    ensures SplitSpans(HostByte(u, s, t, p), t, lo, p + 1)
  {
  }

  lemma HostByteChangesHostOnly(u0: Parts, u: Parts, s: HostState, t: HostState, p: nat)
    requires forall f :: HostFieldOf(t) == Some(f) ==> f in u.fieldData
    requires OnlyHostFieldsChanged(u0, u)
    ensures OnlyHostFieldsChanged(u0, HostByte(u, s, t, p))
  {
  }

  /** One byte of the second pass can be counted. */
  lemma HostByteFits(u: Parts, buf: seq<byte>, foundAt: bool, lo: nat, p: nat)
    requires lo <= p < |buf|
    requires SplitSpans(u, HostStateAt(buf, foundAt, lo, p), lo, p) && SplitExactly(u, buf, foundAt, lo, p)
    requires HostStateAt(buf, foundAt, lo, p) != HostDead && HostStateAt(buf, foundAt, lo, p + 1) != HostDead
    ensures var s, t := HostStateAt(buf, foundAt, lo, p), HostStateAt(buf, foundAt, lo, p + 1);
            forall f :: HostFieldOf(t) == Some(f) ==>
              f in u.fieldData
  {
    hide HostChar, HostStateAt, SplitExactly;
    HostStateStep(buf, foundAt, lo, p);
    HostCharAdvances(HostStateAt(buf, foundAt, lo, p), buf[p]);
  }

  /** It belongs to the field it is labelled with, and to no other. */
  lemma HostByteAt(u: Parts, buf: seq<byte>, foundAt: bool, lo: nat, p: nat, f: Field)
    requires lo <= p < |buf|
    requires SplitSpans(u, HostStateAt(buf, foundAt, lo, p), lo, p) && SplitExactly(u, buf, foundAt, lo, p)
    requires HostStateAt(buf, foundAt, lo, p) != HostDead && HostStateAt(buf, foundAt, lo, p + 1) != HostDead
    requires HostField(f)
    ensures var s, t := HostStateAt(buf, foundAt, lo, p), HostStateAt(buf, foundAt, lo, p + 1);
            && (forall g :: HostFieldOf(t) == Some(g) ==>
                  g in u.fieldData)
            && (HostByte(u, s, t, p).Covers(f, p) <==> HostLabel(buf, foundAt, lo, p) == Some(f))
  {
    hide HostChar, HostStateAt, SplitExactly;
    HostByteFits(u, buf, foundAt, lo, p);
    HostStateStep(buf, foundAt, lo, p);
    HostCharAdvances(HostStateAt(buf, foundAt, lo, p), buf[p]);
  }

  /** It leaves the earlier bytes where they are. */
  lemma HostByteKeeps(u: Parts, buf: seq<byte>, foundAt: bool, lo: nat, p: nat, f: Field, i: nat)
    requires lo <= p < |buf|
    requires SplitSpans(u, HostStateAt(buf, foundAt, lo, p), lo, p) && SplitExactly(u, buf, foundAt, lo, p)
    requires HostStateAt(buf, foundAt, lo, p) != HostDead && HostStateAt(buf, foundAt, lo, p + 1) != HostDead
    requires HostField(f) && lo <= i < p
    ensures var s, t := HostStateAt(buf, foundAt, lo, p), HostStateAt(buf, foundAt, lo, p + 1);
            && (forall g :: HostFieldOf(t) == Some(g) ==>
                  g in u.fieldData)
            && (HostByte(u, s, t, p).Covers(f, i) <==> u.Covers(f, i))
  {
    hide HostChar, HostStateAt, SplitExactly;
    HostByteFits(u, buf, foundAt, lo, p);
    HostStateStep(buf, foundAt, lo, p);
    HostCharAdvances(HostStateAt(buf, foundAt, lo, p), buf[p]);
  }

  lemma HostByteExact(u: Parts, buf: seq<byte>, foundAt: bool, lo: nat, p: nat)
    requires lo <= p < |buf|
    requires SplitSpans(u, HostStateAt(buf, foundAt, lo, p), lo, p) && SplitExactly(u, buf, foundAt, lo, p)
    requires HostStateAt(buf, foundAt, lo, p) != HostDead && HostStateAt(buf, foundAt, lo, p + 1) != HostDead
    ensures var s, t := HostStateAt(buf, foundAt, lo, p), HostStateAt(buf, foundAt, lo, p + 1);
            && (forall f :: HostFieldOf(t) == Some(f) ==>
                  f in u.fieldData)
            && SplitExactly(HostByte(u, s, t, p), buf, foundAt, lo, p + 1)
  {
    hide HostChar, HostStateAt, SplitSpans, HostLabel;
    HostByteFits(u, buf, foundAt, lo, p);
    var v := HostByte(u, HostStateAt(buf, foundAt, lo, p), HostStateAt(buf, foundAt, lo, p + 1), p);
    forall f, i | HostField(f) && lo <= i < p + 1
      ensures v.Covers(f, i) <==> HostLabel(buf, foundAt, lo, i) == Some(f)
    {
      if i < p { HostByteKeeps(u, buf, foundAt, lo, p, f, i); } else { HostByteAt(u, buf, foundAt, lo, p, f); }
    }
  }

  lemma HostStateStep(buf: seq<byte>, foundAt: bool, lo: nat, p: nat)
    requires lo <= p < |buf|
    ensures HostStateAt(buf, foundAt, lo, p + 1) == HostChar(HostStateAt(buf, foundAt, lo, p), buf[p])
  {
  }

  predicate GoodHostEnd(s: HostState) { s == InHost || s == V6End || s == InPort }

  lemma {:induction false} HostDeadIsFinal(buf: seq<byte>, foundAt: bool, lo: nat, i: nat, hi: nat)
    requires lo <= i <= hi <= |buf| && HostStateAt(buf, foundAt, lo, i) == HostDead
    ensures HostStateAt(buf, foundAt, lo, hi) == HostDead
    decreases hi - i
  {
    if i < hi {
      HostDeadIsFinal(buf, foundAt, lo, i + 1, hi);
    }
  }

  lemma NothingSplit(u: Parts, buf: seq<byte>, foundAt: bool, lo: nat)
    requires u.Total() && Host in u.fieldSet && Port !in u.fieldSet && Userinfo !in u.fieldSet
    requires u.fieldData[Host] == Span(lo, 0) && lo <= |buf|
    ensures SplitSpans(u, HostStateAt(buf, foundAt, lo, lo), lo, lo) && SplitExactly(u, buf, foundAt, lo, lo)
  {
  }

  // ----- What an accepted URL looks like -----

  /** Fields lie in the buffer, do not overlap, and leave out delimiters only. */
  ghost predicate Partition(u: Parts, buf: seq<byte>) {
    && u.Total()
    && (forall f | f in u.fieldSet :: 0 < u.fieldData[f].len && u.End(f) <= |buf|)
    && (forall f, g, i :: u.Covers(f, i) && u.Covers(g, i) ==> f == g)
    && (forall i | 0 <= i < |buf| :: (exists f :: u.Covers(f, i)) || IsDelimiter(buf[i]))
  }

  lemma {:induction false} NeverDead(buf: seq<byte>, isConnect: bool, i: nat)
    requires i <= |buf| && StateAt(buf, isConnect, |buf|) != Dead
    ensures StateAt(buf, isConnect, i) != Dead
  {
    if StateAt(buf, isConnect, i) == Dead { DeadIsFinal(buf, isConnect, i); }
  }

  lemma HostNeverDead(buf: seq<byte>, foundAt: bool, lo: nat, i: nat, hi: nat)
    requires lo <= i <= hi <= |buf| && HostStateAt(buf, foundAt, lo, hi) != HostDead
    ensures HostStateAt(buf, foundAt, lo, i) != HostDead
  {
    if HostStateAt(buf, foundAt, lo, i) == HostDead { HostDeadIsFinal(buf, foundAt, lo, i, hi); }
  }

  /** A byte without a field is a delimiter, in either pass. */
  lemma UnlabelledIsDelimiter(buf: seq<byte>, isConnect: bool, i: nat)
    requires i < |buf| && StateAt(buf, isConnect, |buf|) != Dead && Label(buf, isConnect, i) == None
    ensures IsDelimiter(buf[i])
  {
    NeverDead(buf, isConnect, i + 1);
    UrlCharAdvances(StateAt(buf, isConnect, i), buf[i]);
  }

  lemma HostUnlabelledIsDelimiter(buf: seq<byte>, foundAt: bool, lo: nat, i: nat, hi: nat)
    requires lo <= i < hi <= |buf| && HostStateAt(buf, foundAt, lo, hi) != HostDead
    requires HostLabel(buf, foundAt, lo, i) == None
    ensures IsDelimiter(buf[i])
  {
    HostNeverDead(buf, foundAt, lo, i + 1, hi);
    HostCharAdvances(HostStateAt(buf, foundAt, lo, i), buf[i]);
  }

  /** Without an authority the first pass alone is the partition. */
  lemma FirstPassPartitions(u: Parts, buf: seq<byte>, isConnect: bool, uf: Option<Field>)
    requires FirstPass(u, buf, isConnect, |buf|, uf) && StateAt(buf, isConnect, |buf|) != Dead
    ensures Partition(u, buf)
  {
    hide StateAt;
    forall i | 0 <= i < |buf|
      ensures (exists f :: u.Covers(f, i)) || IsDelimiter(buf[i])
    {
      if Label(buf, isConnect, i) == None {
        UnlabelledIsDelimiter(buf, isConnect, i);
      } else {
        assert u.Covers(Label(buf, isConnect, i).value, i);
      }
    }
  }

  /** The second pass has only touched its own fields. */
  ghost predicate OnlyHostFieldsChanged(u: Parts, v: Parts) {
    forall f: Field | !HostField(f) ::
      (f in u.fieldSet <==> f in v.fieldSet)
      && f in u.fieldData && f in v.fieldData && u.fieldData[f] == v.fieldData[f]
  }

  lemma SpanDoesNotMatter(u: Parts, span: Span)
    requires u.Total()
    ensures OnlyHostFieldsChanged(u, u.(fieldData := u.fieldData[Host := span]))
  {
  }

  /** Splitting the authority refines the partition. */
  lemma SecondPassPartitions(u: Parts, v: Parts, buf: seq<byte>, isConnect: bool, uf: Option<Field>, foundAt: bool)
    requires FirstPass(u, buf, isConnect, |buf|, uf) && StateAt(buf, isConnect, |buf|) != Dead
    requires Host in u.fieldSet && OnlyHostFieldsChanged(u, v)
    requires var lo, hi := u.fieldData[Host].off, u.End(Host);
             && GoodHostEnd(HostStateAt(buf, foundAt, lo, hi))
             && SplitSpans(v, HostStateAt(buf, foundAt, lo, hi), lo, hi) && SplitExactly(v, buf, foundAt, lo, hi)
    ensures Partition(v, buf)
  {
    hide StateAt, HostStateAt, HostChar, UrlChar;
    var lo, hi := u.fieldData[Host].off, u.End(Host);
    forall f, i | v.Covers(f, i)
      ensures 0 <= i < |buf|
      ensures if HostField(f) then lo <= i < hi && HostLabel(buf, foundAt, lo, i) == Some(f)
              else !(lo <= i < hi) && Label(buf, isConnect, i) == Some(f)
    {
      if !HostField(f) {
        assert u.Covers(f, i);
        assert u.Covers(Host, i) <==> Label(buf, isConnect, i) == Some(Host);
      }
    }
    forall i | 0 <= i < |buf|
      ensures (exists f :: v.Covers(f, i)) || IsDelimiter(buf[i])
    {
      PartitionByte(u, v, buf, isConnect, uf, foundAt, i);
    }
  }

  lemma PartitionByte(u: Parts, v: Parts, buf: seq<byte>, isConnect: bool, uf: Option<Field>, foundAt: bool, i: nat)
    requires FirstPass(u, buf, isConnect, |buf|, uf) && StateAt(buf, isConnect, |buf|) != Dead
    requires Host in u.fieldSet && OnlyHostFieldsChanged(u, v) && i < |buf|
    requires var lo, hi := u.fieldData[Host].off, u.End(Host);
             HostStateAt(buf, foundAt, lo, hi) != HostDead && SplitExactly(v, buf, foundAt, lo, hi)
    ensures (exists f :: v.Covers(f, i)) || IsDelimiter(buf[i])
  {
    hide StateAt, HostStateAt, HostChar, UrlChar;
    var lo, hi := u.fieldData[Host].off, u.End(Host);
    var l := Label(buf, isConnect, i);
    if lo <= i < hi {
      var h := HostLabel(buf, foundAt, lo, i);
      if h == None {
        HostUnlabelledIsDelimiter(buf, foundAt, lo, i, hi);
      } else {
        HostLabelsAreHostFields(HostStateAt(buf, foundAt, lo, i + 1));
        assert v.Covers(h.value, i);
      }
    } else if l == None {
      UnlabelledIsDelimiter(buf, isConnect, i);
    } else {
      assert u.Covers(l.value, i);
      assert !u.Covers(Host, i);
      OnlyFirstPassFields(StateAt(buf, isConnect, i + 1));
      assert v.Covers(l.value, i);
    }
  }

  lemma HostLabelsAreHostFields(s: HostState)
    ensures HostFieldOf(s).Some? ==> HostField(HostFieldOf(s).value)
  {
  }

  /** The delimiters around the fields are the ones of section 3 of RFC 3986. */
  predicate Framed(u: Parts, buf: seq<byte>)
    requires forall f: Field | f in u.fieldSet :: f in u.fieldData && u.End(f) <= |buf|
  {
    && (Schema in u.fieldSet ==>
          u.fieldData[Schema].off == 0 && u.End(Schema) + 3 <= |buf|
          && buf[u.End(Schema)..u.End(Schema) + 3] == [COLON, SLASH, SLASH])
    && (Userinfo in u.fieldSet ==> u.End(Userinfo) < |buf| && buf[u.End(Userinfo)] == AT)
    && (Port in u.fieldSet ==> 0 < u.fieldData[Port].off <= |buf| && buf[u.fieldData[Port].off - 1] == COLON)
    && (Query in u.fieldSet ==> 0 < u.fieldData[Query].off <= |buf| && buf[u.fieldData[Query].off - 1] == QUESTION)
    && (Fragment in u.fieldSet ==> 0 < u.fieldData[Fragment].off <= |buf| && buf[u.fieldData[Fragment].off - 1] == HASH)
  }

  /** How the delimited fields are entered. */
  lemma UrlCharFrames(s: State, ch: byte)
    ensures var t := UrlChar(s, ch);
            && (t == InQuery ==> s == InQuery || s == QueryStart)
            && (t == QueryStart ==> ch == QUESTION)
            && (t == InFragment ==> s == InFragment || s == FragmentStart)
            && (t == FragmentStart ==> ch == HASH)
            && (t == InSchema ==> s == InSchema || s == SpacesBeforeUrl)
            && (t == SpacesBeforeUrl ==> false)
            && (s == InSchema && t != Dead && t != InSchema ==> t == SchemaSlash && ch == COLON)
            && (s == SchemaSlash && t != Dead ==> t == SchemaSlashSlash && ch == SLASH)
            && (s == SchemaSlashSlash && t != Dead ==> t == ServerStart && ch == SLASH)
  {
  }

  /** The first byte of a query or fragment follows its delimiter. */
  lemma EntryIsFramed(buf: seq<byte>, isConnect: bool, o: nat, f: Field)
    requires o < |buf| && (f == Query || f == Fragment)
    requires Label(buf, isConnect, o) == Some(f) && (o > 0 ==> Label(buf, isConnect, o - 1) != Some(f))
    ensures 0 < o && buf[o - 1] == if f == Query then QUESTION else HASH
  {
    UrlCharFrames(StateAt(buf, isConnect, o), buf[o]);
    if o > 0 {
      UrlCharFrames(StateAt(buf, isConnect, o - 1), buf[o - 1]);
    }
  }

  lemma SchemaIsFramed(buf: seq<byte>, isConnect: bool, o: nat, e: nat)
    requires o < e <= |buf|
    requires StateAt(buf, isConnect, |buf|) != Dead && Rank(StateAt(buf, isConnect, |buf|)) >= 4
    requires forall i | o <= i < e :: Label(buf, isConnect, i) == Some(Schema)
    requires o > 0 ==> Label(buf, isConnect, o - 1) != Some(Schema)
    requires e < |buf| ==> Label(buf, isConnect, e) != Some(Schema)
    ensures o == 0 && e + 3 <= |buf| && buf[e..e + 3] == [COLON, SLASH, SLASH]
  {
    hide UrlChar;
    assert Label(buf, isConnect, e - 1) == Some(Schema) && Label(buf, isConnect, o) == Some(Schema);
    UrlCharFrames(StateAt(buf, isConnect, o), buf[o]);
    if o > 0 { UrlCharFrames(StateAt(buf, isConnect, o - 1), buf[o - 1]); }
    NeverDead(buf, isConnect, e + 1);
    UrlCharFrames(StateAt(buf, isConnect, e), buf[e]);
    NeverDead(buf, isConnect, e + 2);
    UrlCharFrames(StateAt(buf, isConnect, e + 1), buf[e + 1]);
    NeverDead(buf, isConnect, e + 3);
    UrlCharFrames(StateAt(buf, isConnect, e + 2), buf[e + 2]);
  }

  /** The edges of a reported span are edges of its label. */
  lemma SpanEdges(u: Parts, buf: seq<byte>, isConnect: bool, uf: Option<Field>, f: Field)
    requires FirstPass(u, buf, isConnect, |buf|, uf) && f in u.fieldSet
    ensures var o, e := u.fieldData[f].off, u.End(f);
            && o < e <= |buf| && (forall i | o <= i < e :: Label(buf, isConnect, i) == Some(f))
            && (o > 0 ==> Label(buf, isConnect, o - 1) != Some(f))
            && (e < |buf| ==> Label(buf, isConnect, e) != Some(f))
  {
    hide StateAt;
    var o, e := u.fieldData[f].off, u.End(f);
    forall i | o <= i < e
      ensures Label(buf, isConnect, i) == Some(f)
    {
      assert u.Covers(f, i);
    }
    assert o > 0 ==> !u.Covers(f, o - 1);
    assert e < |buf| ==> !u.Covers(f, e);
  }

  lemma FirstPassIsFramed(u: Parts, buf: seq<byte>, isConnect: bool, uf: Option<Field>)
    requires FirstPass(u, buf, isConnect, |buf|, uf) && StateAt(buf, isConnect, |buf|) != Dead
    requires Schema in u.fieldSet ==> Host in u.fieldSet
    ensures Framed(u, buf)
  {
    hide StateAt;
    if Schema in u.fieldSet {
      SpanEdges(u, buf, isConnect, uf, Schema);
      assert FieldRank(Host) <= Rank(StateAt(buf, isConnect, |buf|));
      SchemaIsFramed(buf, isConnect, u.fieldData[Schema].off, u.End(Schema));
    }
    if Query in u.fieldSet {
      SpanEdges(u, buf, isConnect, uf, Query);
      EntryIsFramed(buf, isConnect, u.fieldData[Query].off, Query);
    }
    if Fragment in u.fieldSet {
      SpanEdges(u, buf, isConnect, uf, Fragment);
      EntryIsFramed(buf, isConnect, u.fieldData[Fragment].off, Fragment);
    }
  }

  lemma HostCharFrames(s: HostState, ch: byte)
    ensures var t := HostChar(s, ch);
            && (t == InPort ==> s == InPort || s == PortStart)
            && (t == PortStart ==> ch == COLON)
            && (s == InUserinfo && t != InUserinfo && t != HostDead ==> ch == AT)
  {
  }

  /** User information ends at the commercial at sign. */
  lemma UserinfoIsFramed(v: Parts, buf: seq<byte>, foundAt: bool, lo: nat, hi: nat)
    requires lo < hi <= |buf| && GoodHostEnd(HostStateAt(buf, foundAt, lo, hi)) && Userinfo in v.fieldSet
    requires SplitSpans(v, HostStateAt(buf, foundAt, lo, hi), lo, hi) && SplitExactly(v, buf, foundAt, lo, hi)
    ensures v.End(Userinfo) < |buf| && buf[v.End(Userinfo)] == AT
  {
    hide HostChar;
    var e := v.End(Userinfo);
    assert v.Covers(Userinfo, e - 1) && !v.Covers(Userinfo, e);
    assert HostLabel(buf, foundAt, lo, e - 1) == Some(Userinfo);
    HostNeverDead(buf, foundAt, lo, if e < hi then e + 1 else hi, hi);
    if e < hi { HostCharFrames(HostStateAt(buf, foundAt, lo, e), buf[e]); }
  }

  /** The port is a run of digits after a colon. */
  lemma PortIsFramed(v: Parts, buf: seq<byte>, foundAt: bool, lo: nat, hi: nat)
    requires lo < hi <= |buf| && Port in v.fieldSet
    requires SplitSpans(v, HostStateAt(buf, foundAt, lo, hi), lo, hi) && SplitExactly(v, buf, foundAt, lo, hi)
    ensures 0 < v.fieldData[Port].off && buf[v.fieldData[Port].off - 1] == COLON
    ensures forall i | v.fieldData[Port].off <= i < v.End(Port) :: IsDigit(buf[i])
  {
    hide HostChar;
    var o := v.fieldData[Port].off;
    assert v.Covers(Port, o) && !v.Covers(Port, o - 1);
    assert HostLabel(buf, foundAt, lo, o) == Some(Port);
    HostCharFrames(HostStateAt(buf, foundAt, lo, o), buf[o]);
    if lo < o { HostCharFrames(HostStateAt(buf, foundAt, lo, o - 1), buf[o - 1]); }
    forall i | o <= i < v.End(Port)
      ensures IsDigit(buf[i])
    {
      assert v.Covers(Port, i) && HostLabel(buf, foundAt, lo, i) == Some(Port);
      HostCharAdvances(HostStateAt(buf, foundAt, lo, i), buf[i]);
    }
  }

  /** The reported port is the decimal value of its digits. */
  predicate PortOk(u: Parts, buf: seq<byte>, port: u16) {
    if Port in u.fieldSet then
      && Port in u.fieldData && u.End(Port) <= |buf|
      && (forall i | u.fieldData[Port].off <= i < u.End(Port) :: IsDigit(buf[i]))
      && port == PortValue(buf, u.fieldData[Port].off, u.End(Port))
    else port == 0
  }

  /** The decimal value of the digits from lo to hi. */
  function PortValue(buf: seq<byte>, lo: nat, hi: nat): nat
    requires lo <= hi <= |buf| && forall i | lo <= i < hi :: IsDigit(buf[i])
  {
    if lo == hi then 0
    else
      assert IsDigit(buf[hi - 1]);
      PortValue(buf, lo, hi - 1) * 10 + (buf[hi - 1] as int - 48)
  }

  lemma {:induction false} PortValueGrows(buf: seq<byte>, lo: nat, p: nat, hi: nat)
    requires lo <= p <= hi <= |buf| && forall i | lo <= i < hi :: IsDigit(buf[i])
    ensures PortValue(buf, lo, p) <= PortValue(buf, lo, hi)
  {
    if p < hi {
      PortValueGrows(buf, lo, p, hi - 1);
    }
  }

  // ----- Which URLs are accepted -----

  /** Some byte of the buffer is labelled with the field. */
  predicate Has(buf: seq<byte>, isConnect: bool, f: Field) {
    exists i | 0 <= i < |buf| :: Label(buf, isConnect, i) == Some(f)
  }

  /** An at sign was seen in the authority, in the first p bytes. */
  predicate FoundBy(buf: seq<byte>, isConnect: bool, p: nat)
    requires p <= |buf|
  {
    exists i | 0 < i <= p :: StateAt(buf, isConnect, i) == ServerWithAt
  }

  predicate FoundAt(buf: seq<byte>, isConnect: bool) { FoundBy(buf, isConnect, |buf|) }

  /** Exactly the bytes from lo to hi are labelled with the field. */
  predicate Spans(buf: seq<byte>, isConnect: bool, f: Field, lo: nat, hi: nat): (r: bool)
    ensures r ==> lo < hi <= |buf|
  {
    lo < hi <= |buf| && forall i | 0 <= i < |buf| :: Label(buf, isConnect, i) == Some(f) <==> lo <= i < hi
  }

  /** The same within an authority. */
  predicate HostHas(buf: seq<byte>, foundAt: bool, lo: nat, hi: nat, f: Field)
    requires lo <= hi <= |buf|
  {
    exists i | lo <= i < hi :: HostLabel(buf, foundAt, lo, i) == Some(f)
  }

  predicate HostSpans(buf: seq<byte>, foundAt: bool, lo: nat, hi: nat, f: Field, a: nat, b: nat)
    requires lo <= hi <= |buf|
  {
    lo <= a < b <= hi && forall i | lo <= i < hi :: HostLabel(buf, foundAt, lo, i) == Some(f) <==> a <= i < b
  }

  /** The authority ends properly, its port fits in 16 bits, and for CONNECT it is host and port. */
  ghost predicate AuthorityOk(buf: seq<byte>, isConnect: bool, lo: nat, hi: nat)
    requires lo <= hi <= |buf|
  {
    var foundAt := FoundAt(buf, isConnect);
    && GoodHostEnd(HostStateAt(buf, foundAt, lo, hi))
    && (isConnect ==> HostHas(buf, foundAt, lo, hi, Port) && !HostHas(buf, foundAt, lo, hi, Userinfo))
    && forall a, b | HostSpans(buf, foundAt, lo, hi, Port, a, b) && (forall i | a <= i < b :: IsDigit(buf[i])) ::
         PortValue(buf, a, b) <= 0xffff
  }

  /** What http_parser_parse_url accepts. */
  ghost predicate Acceptable(buf: seq<byte>, isConnect: bool) {
    && buf != [] && StateAt(buf, isConnect, |buf|) != Dead
    && (Has(buf, isConnect, Schema) ==> Has(buf, isConnect, Host))
    && (Has(buf, isConnect, Host) ==>
          exists lo, hi :: Spans(buf, isConnect, Host, lo, hi) && AuthorityOk(buf, isConnect, lo, hi))
    && (isConnect ==>
          && Has(buf, isConnect, Host) && !Has(buf, isConnect, Schema)
          && !Has(buf, isConnect, Path) && !Has(buf, isConnect, Query) && !Has(buf, isConnect, Fragment))
  }

  /** After the first pass the fields are exactly the labels, with their spans. */
  lemma FieldsAreLabels(u: Parts, buf: seq<byte>, isConnect: bool, uf: Option<Field>)
    requires FirstPass(u, buf, isConnect, |buf|, uf)
    ensures u.Total() && forall f :: f in u.fieldSet <==> Has(buf, isConnect, f)
    ensures forall f | f in u.fieldSet :: Spans(buf, isConnect, f, u.fieldData[f].off, u.End(f))
  {
    hide Spans, Has, FirstPass;
    assert u.Total() by { FieldIsLabel(u, buf, isConnect, uf, Host); }
    forall f
      ensures f in u.fieldSet <==> Has(buf, isConnect, f)
      ensures f in u.fieldSet ==> Spans(buf, isConnect, f, u.fieldData[f].off, u.End(f))
    {
      FieldIsLabel(u, buf, isConnect, uf, f);
    }
  }

  lemma FieldIsLabel(u: Parts, buf: seq<byte>, isConnect: bool, uf: Option<Field>, f: Field)
    requires FirstPass(u, buf, isConnect, |buf|, uf)
    ensures u.Total() && (f in u.fieldSet <==> Has(buf, isConnect, f))
    ensures f in u.fieldSet ==> Spans(buf, isConnect, f, u.fieldData[f].off, u.End(f))
  {
    hide Label, StateAt, Rank, FieldRank, FirstPassField;
    if f in u.fieldSet { assert u.Covers(f, u.fieldData[f].off); }
    if Has(buf, isConnect, f) {
      var i :| 0 <= i < |buf| && Label(buf, isConnect, i) == Some(f);
      assert u.Covers(f, i);
    }
  }

  /** After the second pass the same holds for the parts of the authority. */
  lemma HostFieldsAreLabels(v: Parts, buf: seq<byte>, foundAt: bool, lo: nat, hi: nat, f: Field)
    requires lo <= hi <= |buf| && HostField(f)
    requires SplitSpans(v, HostStateAt(buf, foundAt, lo, hi), lo, hi) && SplitExactly(v, buf, foundAt, lo, hi)
    requires f in v.fieldSet ==> f in v.fieldData && 0 < v.fieldData[f].len
    ensures f in v.fieldSet <==> HostHas(buf, foundAt, lo, hi, f)
    ensures f in v.fieldSet ==> HostSpans(buf, foundAt, lo, hi, f, v.fieldData[f].off, v.End(f))
  {
    hide HostLabel, HostStateAt;
    if f in v.fieldSet { assert v.Covers(f, v.fieldData[f].off); }
    if HostHas(buf, foundAt, lo, hi, f) {
      var i :| lo <= i < hi && HostLabel(buf, foundAt, lo, i) == Some(f);
      assert v.Covers(f, i);
    }
  }

  lemma OneSpan(buf: seq<byte>, isConnect: bool, f: Field, lo: nat, hi: nat, lo': nat, hi': nat)
    requires Spans(buf, isConnect, f, lo, hi) && Spans(buf, isConnect, f, lo', hi')
    ensures lo == lo' && hi == hi'
  {
    hide Label;
    assert Label(buf, isConnect, lo) == Some(f) && Label(buf, isConnect, lo') == Some(f);
    assert Label(buf, isConnect, hi - 1) == Some(f) && Label(buf, isConnect, hi' - 1) == Some(f);
  }

  lemma OneHostSpan(buf: seq<byte>, foundAt: bool, lo: nat, hi: nat, f: Field, a: nat, b: nat, a': nat, b': nat)
    requires lo <= hi <= |buf|
    requires HostSpans(buf, foundAt, lo, hi, f, a, b) && HostSpans(buf, foundAt, lo, hi, f, a', b')
    ensures a == a' && b == b'
  {
    hide HostLabel;
    assert HostLabel(buf, foundAt, lo, a) == Some(f) && HostLabel(buf, foundAt, lo, a') == Some(f);
    assert HostLabel(buf, foundAt, lo, b - 1) == Some(f) && HostLabel(buf, foundAt, lo, b' - 1) == Some(f);
  }

  /** Whether the authority is acceptable can be read off the fields found in it. */
  lemma AuthorityIs(v: Parts, buf: seq<byte>, isConnect: bool, lo: nat, hi: nat)
    requires lo <= hi <= |buf|
    requires var foundAt := FoundAt(buf, isConnect);
             && SplitSpans(v, HostStateAt(buf, foundAt, lo, hi), lo, hi) && SplitExactly(v, buf, foundAt, lo, hi)
             && GoodHostEnd(HostStateAt(buf, foundAt, lo, hi))
    requires Port in v.fieldSet ==>
               && Port in v.fieldData && v.End(Port) <= |buf|
               && forall i | v.fieldData[Port].off <= i < v.End(Port) :: IsDigit(buf[i])
    ensures AuthorityOk(buf, isConnect, lo, hi)
       <==> && (isConnect ==> Port in v.fieldSet && Userinfo !in v.fieldSet)
            && (Port in v.fieldSet ==> PortValue(buf, v.fieldData[Port].off, v.End(Port)) <= 0xffff)
  {
    hide HostStateAt, SplitSpans, SplitExactly, HostHas, HostSpans, PortValue;
    var foundAt := FoundAt(buf, isConnect);
    SplitIsFilled(v, HostStateAt(buf, foundAt, lo, hi), lo, hi);
    HostFieldsAreLabels(v, buf, foundAt, lo, hi, Port);
    HostFieldsAreLabels(v, buf, foundAt, lo, hi, Userinfo);
    forall a, b | HostSpans(buf, foundAt, lo, hi, Port, a, b)
      ensures Port in v.fieldSet && a == v.fieldData[Port].off && b == v.End(Port)
    {
      SpansHas(buf, foundAt, lo, hi, Port, a, b);
      OneHostSpan(buf, foundAt, lo, hi, Port, a, b, v.fieldData[Port].off, v.End(Port));
    }
  }

  /** At a proper end no reported part is empty. */
  lemma SplitIsFilled(v: Parts, s: HostState, lo: nat, hi: nat)
    requires SplitSpans(v, s, lo, hi) && GoodHostEnd(s)
    ensures v.Total() && Host in v.fieldSet
    ensures forall f | HostField(f) && f in v.fieldSet ::
              lo <= v.fieldData[f].off && 0 < v.fieldData[f].len && v.End(f) <= hi
  {
  }

  lemma SpansHas(buf: seq<byte>, foundAt: bool, lo: nat, hi: nat, f: Field, a: nat, b: nat)
    requires lo <= hi <= |buf| && HostSpans(buf, foundAt, lo, hi, f, a, b)
    ensures HostHas(buf, foundAt, lo, hi, f)
  {
    hide HostLabel;
    assert HostLabel(buf, foundAt, lo, a) == Some(f);
  }

  /** A malformed authority rules the URL out. */
  lemma BadAuthority(buf: seq<byte>, isConnect: bool, lo: nat, hi: nat)
    requires Spans(buf, isConnect, Host, lo, hi) && !AuthorityOk(buf, isConnect, lo, hi)
    ensures !Acceptable(buf, isConnect)
  {
    hide Spans, AuthorityOk, Has, StateAt;
    SpansMeansHas(buf, isConnect, Host, lo, hi);
    forall lo', hi' | Spans(buf, isConnect, Host, lo', hi')
      ensures lo' == lo && hi' == hi
    {
      OneSpan(buf, isConnect, Host, lo, hi, lo', hi');
    }
  }

  lemma SpansMeansHas(buf: seq<byte>, isConnect: bool, f: Field, lo: nat, hi: nat)
    requires Spans(buf, isConnect, f, lo, hi)
    ensures Has(buf, isConnect, f)
  {
    hide Label;
    assert Label(buf, isConnect, lo) == Some(f);
  }

  /** The same fields outside the authority. */
  predicate SameOthers(u: Parts, v: Parts) { forall f: Field | !HostField(f) :: f in u.fieldSet <==> f in v.fieldSet }

  /** With an authority that is split properly, the fields found decide. */
  lemma AcceptableIs(u: Parts, v: Parts, buf: seq<byte>, isConnect: bool, uf: Option<Field>)
    requires buf != [] && FirstPass(u, buf, isConnect, |buf|, uf) && StateAt(buf, isConnect, |buf|) != Dead
    requires Host in u.fieldSet && SameOthers(u, v) && u.Total() && v.Total()
    requires var lo, hi, foundAt := u.fieldData[Host].off, u.End(Host), FoundAt(buf, isConnect);
             && hi <= |buf| && GoodHostEnd(HostStateAt(buf, foundAt, lo, hi))
             && SplitSpans(v, HostStateAt(buf, foundAt, lo, hi), lo, hi) && SplitExactly(v, buf, foundAt, lo, hi)
    requires Port in v.fieldSet ==>
               v.End(Port) <= |buf| && forall i | v.fieldData[Port].off <= i < v.End(Port) :: IsDigit(buf[i])
    ensures Acceptable(buf, isConnect)
       <==> && (isConnect ==> v.fieldSet == {Host, Port})
            && (Port in v.fieldSet ==> PortValue(buf, v.fieldData[Port].off, v.End(Port)) <= 0xffff)
  {
    hide StateAt, HostStateAt, FirstPass, SplitExactly, Spans, Has, AuthorityOk, PortValue, FoundAt;
    var lo, hi := u.fieldData[Host].off, u.End(Host);
    FieldsAreLabels(u, buf, isConnect, uf);
    AuthorityIs(v, buf, isConnect, lo, hi);
    OnlyHostAndPort(u, v);
    if !AuthorityOk(buf, isConnect, lo, hi) { BadAuthority(buf, isConnect, lo, hi); }
  }

  /** CONNECT's test of the field set, one field at a time. */
  lemma OnlyHostAndPort(u: Parts, v: Parts)
    requires SameOthers(u, v) && Host in v.fieldSet
    ensures v.fieldSet == {Host, Port}
       <==> && Port in v.fieldSet && Userinfo !in v.fieldSet
            && Schema !in u.fieldSet && Path !in u.fieldSet && Query !in u.fieldSet && Fragment !in u.fieldSet
  {
    if && Port in v.fieldSet && Userinfo !in v.fieldSet
       && Schema !in u.fieldSet && Path !in u.fieldSet && Query !in u.fieldSet && Fragment !in u.fieldSet
    {
      forall f | f in v.fieldSet
        ensures f in {Host, Port}
      {
        match f case Schema => case Host => case Port => case Path => case Query => case Fragment => case Userinfo =>
      }
    }
  }

  lemma NoAuthority(u: Parts, buf: seq<byte>, isConnect: bool, uf: Option<Field>)
    requires buf != [] && FirstPass(u, buf, isConnect, |buf|, uf) && StateAt(buf, isConnect, |buf|) != Dead
    requires Host !in u.fieldSet
    ensures Acceptable(buf, isConnect) <==> Schema !in u.fieldSet && !isConnect
  {
    hide StateAt, FirstPass, Has, Spans, AuthorityOk;
    FieldsAreLabels(u, buf, isConnect, uf);
  }

  /** The first pass and the second pass together. */
  lemma SplitUrlIsWellFormed(u: Parts, v: Parts, buf: seq<byte>, isConnect: bool, uf: Option<Field>, foundAt: bool)
    requires FirstPass(u, buf, isConnect, |buf|, uf) && StateAt(buf, isConnect, |buf|) != Dead
    requires Host in u.fieldSet && OnlyHostFieldsChanged(u, v)
    requires var lo, hi := u.fieldData[Host].off, u.End(Host);
             && GoodHostEnd(HostStateAt(buf, foundAt, lo, hi))
             && SplitSpans(v, HostStateAt(buf, foundAt, lo, hi), lo, hi) && SplitExactly(v, buf, foundAt, lo, hi)
    ensures Partition(v, buf) && Framed(v, buf) && Host in v.fieldSet
    ensures Port in v.fieldSet ==> forall i | v.fieldData[Port].off <= i < v.End(Port) :: IsDigit(buf[i])
  {
    hide StateAt, HostStateAt, FirstPass, SplitExactly, Partition;
    SpansOfFirstPass(u, buf, isConnect, uf);
    var lo, hi := u.fieldData[Host].off, u.End(Host);
    SpanEdges(u, buf, isConnect, uf, Host);
    SecondPassPartitions(u, v, buf, isConnect, uf, foundAt);
    PartitionInBuffer(v, buf);
    FirstPassIsFramed(u, buf, isConnect, uf);
    if Userinfo in v.fieldSet { UserinfoIsFramed(v, buf, foundAt, lo, hi); }
    if Port in v.fieldSet { PortIsFramed(v, buf, foundAt, lo, hi); }
  }

  // ----- Offsets and lengths of 16 bits -----

  /** The authority and the beginnings of its parts can be stored. */
  ghost predicate AuthorityFits(buf: seq<byte>, isConnect: bool) {
    && (forall lo: nat, hi: nat | Spans(buf, isConnect, Host, lo, hi) :: lo < TWO16 && hi - lo < TWO16)
    && forall lo: nat, hi: nat, f, a: nat, b: nat |
         Spans(buf, isConnect, Host, lo, hi) && HostSpans(buf, FoundAt(buf, isConnect), lo, hi, f, a, b) :: a < TWO16
  }

  /** All fields can be stored. */
  ghost predicate Fits(buf: seq<byte>, isConnect: bool) {
    && AuthorityFits(buf, isConnect)
    && forall f, lo: nat, hi: nat | Spans(buf, isConnect, f, lo, hi) :: lo < TWO16 && hi - lo < TWO16
  }

  /** Byte i belongs to field f, by both passes over the whole buffer. */
  ghost predicate IsPart(buf: seq<byte>, isConnect: bool, f: Field, i: nat)
    requires i < |buf|
  {
    if HostField(f) then
      exists lo: nat, hi: nat | Spans(buf, isConnect, Host, lo, hi) && lo <= i < hi ::
        HostLabel(buf, FoundAt(buf, isConnect), lo, i) == Some(f)
    else Label(buf, isConnect, i) == Some(f)
  }

  /** The reported spans are not empty, and cover exactly the bytes of their fields. */
  ghost predicate Exact(u: Parts, buf: seq<byte>, isConnect: bool) {
    && u.Total()
    && (forall f | f in u.fieldSet :: 0 < u.fieldData[f].len && u.End(f) <= |buf|)
    && forall f, i | 0 <= i < |buf| :: u.Covers(f, i) <==> IsPart(buf, isConnect, f, i)
  }

  /** Short URLs fit. */
  lemma ShortFits(buf: seq<byte>, isConnect: bool)
    requires |buf| < TWO16
    ensures Fits(buf, isConnect)
  {
    hide Label, HostLabel;
  }

  /** Fields that are not reported hold what 16 bits can hold. */
  predicate RestStored(u: Parts) {
    forall f | f in u.fieldData && f !in u.fieldSet :: Low16(u.fieldData[f]) == u.fieldData[f]
  }

  lemma CutIsKept(u: Parts)
    requires RestStored(u)
    requires forall f | f in u.fieldSet && f in u.fieldData :: u.fieldData[f].off < TWO16 && u.fieldData[f].len < TWO16
    ensures u.Cut() == u
  {
  }

  /** A span that covers exactly the bytes from lo to hi is that span. */
  lemma CoversIsSpan(w: Parts, buf: seq<byte>, f: Field, lo: nat, hi: nat)
    requires w.Total() && lo < hi <= |buf|
    requires f in w.fieldSet ==> 0 < w.fieldData[f].len && w.End(f) <= |buf|
    requires forall i | 0 <= i < |buf| :: w.Covers(f, i) <==> lo <= i < hi
    ensures w.fieldData[f] == Span(lo, hi - lo)
  {
    assert w.Covers(f, lo) && w.Covers(f, hi - 1);
    assert w.Covers(f, w.fieldData[f].off) && w.Covers(f, w.End(f) - 1);
  }

  lemma OneAuthority(buf: seq<byte>, isConnect: bool, lo: nat, hi: nat, f: Field, i: nat)
    requires Spans(buf, isConnect, Host, lo, hi) && i < |buf| && HostField(f)
    ensures IsPart(buf, isConnect, f, i)
       <==> lo <= i < hi && HostLabel(buf, FoundAt(buf, isConnect), lo, i) == Some(f)
  {
    hide Spans, FoundAt, HostLabel;
    forall lo': nat, hi': nat | Spans(buf, isConnect, Host, lo', hi')
      ensures lo' == lo && hi' == hi
    {
      OneSpan(buf, isConnect, Host, lo, hi, lo', hi');
    }
    SpansIn(buf, isConnect, Host, lo, hi);
  }

  lemma SpansIn(buf: seq<byte>, isConnect: bool, f: Field, lo: nat, hi: nat)
    requires Spans(buf, isConnect, f, lo, hi)
    ensures lo < hi <= |buf| && forall i | 0 <= i < |buf| :: Label(buf, isConnect, i) == Some(f) <==> lo <= i < hi
  {
  }

  /** What is found by both passes is exact. */
  lemma FoundIsExact(u: Parts, v: Parts, buf: seq<byte>, isConnect: bool, uf: Option<Field>)
    requires FirstPass(u, buf, isConnect, |buf|, uf) && Host in u.fieldSet && OnlyHostFieldsChanged(u, v)
    requires var lo, hi, foundAt := u.fieldData[Host].off, u.End(Host), FoundAt(buf, isConnect);
             && GoodHostEnd(HostStateAt(buf, foundAt, lo, hi))
             && SplitSpans(v, HostStateAt(buf, foundAt, lo, hi), lo, hi) && SplitExactly(v, buf, foundAt, lo, hi)
    ensures Exact(v, buf, isConnect)
  {
    hide StateAt, HostStateAt, Spans, FoundAt, IsPart, SplitSpans, Label, HostLabel;
    var lo, hi, foundAt := u.fieldData[Host].off, u.End(Host), FoundAt(buf, isConnect);
    FieldsAreLabels(u, buf, isConnect, uf);
    SplitIsFilled(v, HostStateAt(buf, foundAt, lo, hi), lo, hi);
    forall f, i | 0 <= i < |buf|
      ensures v.Covers(f, i) <==> IsPart(buf, isConnect, f, i)
    {
      if HostField(f) {
        OneAuthority(buf, isConnect, lo, hi, f, i);
      } else {
        OtherPart(buf, isConnect, f, i);
        assert u.Covers(f, i) <==> v.Covers(f, i);
      }
    }
  }

  lemma OtherPart(buf: seq<byte>, isConnect: bool, f: Field, i: nat)
    requires i < |buf| && !HostField(f)
    ensures IsPart(buf, isConnect, f, i) <==> Label(buf, isConnect, i) == Some(f)
  {
  }

  lemma NoHostPart(buf: seq<byte>, isConnect: bool, f: Field, i: nat)
    requires i < |buf| && HostField(f) && !Has(buf, isConnect, Host)
    ensures !IsPart(buf, isConnect, f, i)
  {
    hide Label;
    forall lo: nat, hi: nat | Spans(buf, isConnect, Host, lo, hi)
      ensures false
    {
      SpansMeansHas(buf, isConnect, Host, lo, hi);
    }
  }

  /** The same without an authority. */
  lemma FirstPassIsExact(u: Parts, buf: seq<byte>, isConnect: bool, uf: Option<Field>)
    requires FirstPass(u, buf, isConnect, |buf|, uf) && Host !in u.fieldSet
    ensures Exact(u, buf, isConnect)
  {
    hide StateAt, Has, Spans, IsPart, Label;
    FieldsAreLabels(u, buf, isConnect, uf);
    forall f, i | 0 <= i < |buf|
      ensures u.Covers(f, i) <==> IsPart(buf, isConnect, f, i)
    {
      if HostField(f) { NoHostPart(buf, isConnect, f, i); } else { OtherPart(buf, isConnect, f, i); }
    }
  }

  /** A first-pass field that is reported exactly can be stored. */
  lemma ExactFieldFits(w: Parts, buf: seq<byte>, isConnect: bool, f: Field, lo: nat, hi: nat)
    requires Exact(w, buf, isConnect) && w.Cut() == w && !HostField(f) && Spans(buf, isConnect, f, lo, hi)
    ensures lo < TWO16 && hi - lo < TWO16
  {
    hide Label, Spans, IsPart;
    SpansIn(buf, isConnect, f, lo, hi);
    forall i | 0 <= i < |buf|
      ensures w.Covers(f, i) <==> lo <= i < hi
    {
      OtherPart(buf, isConnect, f, i);
    }
    CoversIsSpan(w, buf, f, lo, hi);
    assert w.Cut().fieldData[f] == Low16(w.fieldData[f]);
  }

  /** So can the beginning of a part of the authority. */
  lemma ExactPartFits(w: Parts, buf: seq<byte>, isConnect: bool, lo: nat, hi: nat, f: Field, a: nat, b: nat)
    requires Exact(w, buf, isConnect) && w.Cut() == w && Spans(buf, isConnect, Host, lo, hi)
    requires lo < hi <= |buf| && HostSpans(buf, FoundAt(buf, isConnect), lo, hi, f, a, b)
    ensures a < TWO16
  {
    hide HostLabel, Spans, IsPart, FoundAt;
    var foundAt := FoundAt(buf, isConnect);
    assert HostLabel(buf, foundAt, lo, a) == Some(f);
    LabelIsHostField(buf, foundAt, lo, a);
    OneAuthority(buf, isConnect, lo, hi, f, a);
    assert w.Covers(f, a);
    var o := w.fieldData[f].off;
    assert w.Covers(f, o);
    OneAuthority(buf, isConnect, lo, hi, f, o);
    assert w.Cut().fieldData[f] == Low16(w.fieldData[f]);
  }

  lemma LabelIsHostField(buf: seq<byte>, foundAt: bool, lo: nat, i: nat)
    requires lo <= i < |buf|
    ensures HostLabel(buf, foundAt, lo, i).Some? ==> HostField(HostLabel(buf, foundAt, lo, i).value)
  {
    HostLabelsAreHostFields(HostStateAt(buf, foundAt, lo, i + 1));
  }

  /** One of the last two bytes of a proper authority belongs to a part of it. */
  lemma LabelledNearEnd(buf: seq<byte>, foundAt: bool, lo: nat, hi: nat) returns (i: nat)
    requires lo < hi <= |buf| && GoodHostEnd(HostStateAt(buf, foundAt, lo, hi))
    ensures lo <= i < hi <= i + 2 && HostLabel(buf, foundAt, lo, i).Some?
  {
    var s := HostStateAt(buf, foundAt, lo, hi - 1);
    HostStateStep(buf, foundAt, lo, hi - 1);
    if HostStateAt(buf, foundAt, lo, hi) != V6End {
      return hi - 1;
    }
    assert s == InV6 || s == InV6Zone;
    assert hi - 1 > lo;
    return hi - 2;
  }

  /** If the second pass runs over another stretch than the authority, its end is not reported. */
  lemma ExactAuthorityFits(w: Parts, buf: seq<byte>, isConnect: bool, lo: nat, hi: nat)
    requires Exact(w, buf, isConnect) && Spans(buf, isConnect, Host, lo, hi) && lo < hi <= |buf|
    requires GoodHostEnd(HostStateAt(buf, FoundAt(buf, isConnect), lo, hi))
    requires forall f | HostField(f) && f in w.fieldSet :: w.End(f) <= lo % TWO16 + (hi - lo) % TWO16
    ensures lo < TWO16 && hi - lo < TWO16
  {
    hide HostLabel, Spans, IsPart, FoundAt, HostStateAt;
    var foundAt := FoundAt(buf, isConnect);
    var i := LabelledNearEnd(buf, foundAt, lo, hi);
    var f := HostLabel(buf, foundAt, lo, i).value;
    LabelIsHostField(buf, foundAt, lo, i);
    OneAuthority(buf, isConnect, lo, hi, f, i);
    assert w.Covers(f, i);
  }

  /** The authority of an acceptable URL ends properly. */
  lemma AcceptableEnds(buf: seq<byte>, isConnect: bool, lo: nat, hi: nat)
    requires Acceptable(buf, isConnect) && Spans(buf, isConnect, Host, lo, hi)
    ensures lo < hi <= |buf| && GoodHostEnd(HostStateAt(buf, FoundAt(buf, isConnect), lo, hi))
  {
    hide StateAt, HostStateAt, HostHas, HostSpans, FoundAt;
    hide Spans;
    SpansMeansHas(buf, isConnect, Host, lo, hi);
    SpansIn(buf, isConnect, Host, lo, hi);
    var lo': nat, hi': nat :| Spans(buf, isConnect, Host, lo', hi') && AuthorityOk(buf, isConnect, lo', hi');
    OneSpan(buf, isConnect, Host, lo, hi, lo', hi');
  }

  /** Where an acceptable URL is reported exactly, all its fields can be stored. */
  lemma ExactFits(w: Parts, buf: seq<byte>, isConnect: bool)
    requires Exact(w, buf, isConnect) && w.Cut() == w && Acceptable(buf, isConnect)
    requires forall f, lo: nat, hi: nat | Spans(buf, isConnect, Host, lo, hi) && HostField(f) && f in w.fieldSet ::
               w.End(f) <= lo % TWO16 + (hi - lo) % TWO16
    ensures Fits(buf, isConnect)
  {
    hide Label, HostLabel, Spans, HostSpans, IsPart, FoundAt, Exact, Acceptable, HostStateAt;
    forall f, lo: nat, hi: nat | Spans(buf, isConnect, f, lo, hi)
      ensures lo < TWO16 && hi - lo < TWO16
    {
      if f == Host {
        AcceptableEnds(buf, isConnect, lo, hi);
        ExactAuthorityFits(w, buf, isConnect, lo, hi);
      } else {
        SpansFirstPass(buf, isConnect, f, lo, hi);
        ExactFieldFits(w, buf, isConnect, f, lo, hi);
      }
    }
    forall lo: nat, hi: nat, f, a: nat, b: nat |
      Spans(buf, isConnect, Host, lo, hi) && HostSpans(buf, FoundAt(buf, isConnect), lo, hi, f, a, b)
      ensures a < TWO16
    {
      ExactPartFits(w, buf, isConnect, lo, hi, f, a, b);
    }
  }

  lemma SpansFirstPass(buf: seq<byte>, isConnect: bool, f: Field, lo: nat, hi: nat)
    requires Spans(buf, isConnect, f, lo, hi)
    ensures FirstPassField(f)
  {
    hide StateAt;
    assert Label(buf, isConnect, lo) == Some(f);
    OnlyFirstPassFields(StateAt(buf, isConnect, lo + 1));
  }

  /** What 16 bits hold of a span that is begun or grows. */
  lemma BeginCut(u: Parts, f: Field, p: nat)
    requires u.Total() && RestStored(u)
    ensures u.Begin(f, p).Cut() == Parts(u.fieldSet + {f}, u.Cut().fieldData[f := Span(p % TWO16, 1)])
    ensures u.Begin(f, p).Total() && RestStored(u.Begin(f, p))
  {
  }

  lemma GrowCut(u: Parts, f: Field)
    requires u.Total() && RestStored(u) && f in u.fieldSet
    ensures f in u.Cut().fieldData
    ensures var x := u.Cut().fieldData[f];
            u.Grow(f).Cut() == Parts(u.fieldSet, u.Cut().fieldData[f := Span(x.off, (x.len + 1) % TWO16)])
    ensures u.Grow(f).Total() && RestStored(u.Grow(f))
  {
    var x := u.fieldData[f];
    assert (x.len + 1) % TWO16 == (x.len % TWO16 + 1) % TWO16;
  }

  /** What 16 bits hold after one byte of the authority. */
  lemma AccountIs(v: Parts, s: HostState, t: HostState, p: nat)
    requires v.Total() && RestStored(v)
    requires HostFieldOf(t).Some? && Grows(s, t) ==> HostFieldOf(t).value in v.fieldSet
    ensures v.Cut().Total() && RestStored(HostByte(v, s, t, p))
    ensures match HostFieldOf(t)
            case None => HostByte(v, s, t, p).Cut() == v.Cut()
            case Some(f) =>
              var x := v.Cut().fieldData[f];
              HostByte(v, s, t, p).Cut() ==
              if s == t || t == V6ZoneStart || t == InV6Zone
              then Parts(v.fieldSet, v.Cut().fieldData[f := Span(x.off, (x.len + 1) % TWO16)])
              else Parts(v.fieldSet + {f}, v.Cut().fieldData[f := Span(p % TWO16, 1)])
  {
    hide RestStored, Parts.Cut;
    CutReports(v);
    if HostFieldOf(t).Some? {
      if Grows(s, t) { GrowCut(v, HostFieldOf(t).value); } else { BeginCut(v, HostFieldOf(t).value, p); }
    }
  }

  lemma CutIsEmpty(v: Parts, f: Field)
    requires v.Total()
    ensures f in v.Cut().fieldData && (v.fieldData[f].len == 0 ==> v.Cut().fieldData[f].len == 0)
    ensures v.Cut().fieldSet == v.fieldSet
  {
  }

  lemma CutReports(u: Parts)
    requires u.Total()
    ensures u.Cut().Total() && u.Cut().fieldSet == u.fieldSet
    ensures forall f: Field :: u.Cut().fieldData[f] == Low16(u.fieldData[f]) && u.Cut().End(f) <= u.End(f)
  {
  }

  // ----- What both passes report -----

  /** A char of the buffer as a number; char is signed. */
  function Char(b: byte): int { if b < 128 then b else b - 256 }

  /** The first pass has found u, and the second, over the stored span of the authority, v. */
  ghost predicate BothPasses(u: Parts, v: Parts, buf: seq<byte>, isConnect: bool, uf: Option<Field>) {
    && FirstPass(u, buf, isConnect, |buf|, uf) && StateAt(buf, isConnect, |buf|) != Dead && RestStored(u)
    && if Host in u.fieldSet then SecondPass(u.Cut(), v, buf, FoundAt(buf, isConnect)) && RestStored(v) else v == u
  }

  ghost predicate SecondPass(w: Parts, v: Parts, buf: seq<byte>, foundAt: bool) {
    && w.Total() && v.Total() && OnlyHostFieldsChanged(w, v)
    && var lo, hi := w.fieldData[Host].off, w.End(Host);
    && hi <= |buf| && GoodHostEnd(HostStateAt(buf, foundAt, lo, hi))
    && SplitSpans(v, HostStateAt(buf, foundAt, lo, hi), lo, hi) && SplitExactly(v, buf, foundAt, lo, hi)
  }

  /** An authority that fits is stored as it is. */
  lemma AuthorityIsStored(u: Parts, buf: seq<byte>, isConnect: bool, uf: Option<Field>)
    requires FirstPass(u, buf, isConnect, |buf|, uf) && Host in u.fieldSet && AuthorityFits(buf, isConnect)
    ensures u.Total() && Low16(u.fieldData[Host]) == u.fieldData[Host]
  {
    hide Spans, HostSpans, Label, StateAt, FoundAt;
    FieldsAreLabels(u, buf, isConnect, uf);
  }

  /** And so are its parts. */
  lemma PartsAreStored(v: Parts, buf: seq<byte>, isConnect: bool, lo: nat, hi: nat)
    requires AuthorityFits(buf, isConnect) && Spans(buf, isConnect, Host, lo, hi)
    requires var s := HostStateAt(buf, FoundAt(buf, isConnect), lo, hi);
             GoodHostEnd(s) && SplitSpans(v, s, lo, hi) && SplitExactly(v, buf, FoundAt(buf, isConnect), lo, hi)
    ensures v.Total()
    ensures forall f | HostField(f) && f in v.fieldSet :: Low16(v.fieldData[f]) == v.fieldData[f]
  {
    hide Spans, HostSpans, HostLabel, HostStateAt, FoundAt, SplitSpans, SplitExactly, HostHas;
    var foundAt := FoundAt(buf, isConnect);
    SplitIsFilled(v, HostStateAt(buf, foundAt, lo, hi), lo, hi);
    forall f | HostField(f) && f in v.fieldSet
      ensures Low16(v.fieldData[f]) == v.fieldData[f]
    {
      HostFieldsAreLabels(v, buf, foundAt, lo, hi, f);
    }
  }

  /** The digits of the reported port. */
  predicate PortDigits(w: Parts, buf: seq<byte>) {
    && Port in w.fieldData && w.End(Port) <= |buf|
    && forall i | w.fieldData[Port].off <= i < w.End(Port) :: IsDigit(buf[i])
  }

  /** If the authority fits, what is reported decides as the labels do. */
  lemma ReportDecides(u: Parts, v: Parts, buf: seq<byte>, isConnect: bool, uf: Option<Field>)
    requires buf != [] && BothPasses(u, v, buf, isConnect, uf) && (Schema in u.fieldSet ==> Host in u.fieldSet)
    requires AuthorityFits(buf, isConnect)
    ensures Port in v.fieldSet ==> PortDigits(v.Cut(), buf)
    ensures Acceptable(buf, isConnect)
       <==> && (isConnect ==> v.fieldSet == {Host, Port})
            && (Port in v.fieldSet ==>
                  var w := v.Cut();
                  PortValue(buf, w.fieldData[Port].off, w.End(Port)) <= 0xffff)
  {
    hide StateAt, FirstPass, SecondPass, Acceptable, FoundAt, AuthorityFits, PortValue, RestStored, PortDigits;
    if Host in u.fieldSet {
      AuthorityDecides(u, v, buf, isConnect, uf);
    } else {
      SpansOfFirstPass(u, buf, isConnect, uf);
      NoAuthority(u, buf, isConnect, uf);
    }
  }

  lemma AuthorityDecides(u: Parts, v: Parts, buf: seq<byte>, isConnect: bool, uf: Option<Field>)
    requires buf != [] && BothPasses(u, v, buf, isConnect, uf) && Host in u.fieldSet
    requires AuthorityFits(buf, isConnect)
    ensures Port in v.fieldSet ==> PortDigits(v.Cut(), buf)
    ensures Acceptable(buf, isConnect)
       <==> && (isConnect ==> v.fieldSet == {Host, Port})
            && (Port in v.fieldSet ==>
                  var w := v.Cut();
                  PortValue(buf, w.fieldData[Port].off, w.End(Port)) <= 0xffff)
  {
    hide HostStateAt, SplitExactly, SplitSpans, Acceptable, AuthorityFits, PortValue, Parts.Cut, OnlyHostFieldsChanged;
    SpansOfFirstPass(u, buf, isConnect, uf);
    TrueAuthority(u, v, buf, isConnect, uf);
    PortIsStored(u, v, buf, isConnect, uf);
    hide FirstPass, StateAt, RestStored, FoundAt;
    AcceptableIs(u, v, buf, isConnect, uf);
  }

  lemma SameAfterCut(u: Parts, v: Parts)
    requires SameOthers(u.Cut(), v)
    ensures SameOthers(u, v)
  {
  }

  /** The second pass has run over the authority that the labels give. */
  lemma TrueAuthority(u: Parts, v: Parts, buf: seq<byte>, isConnect: bool, uf: Option<Field>)
    requires BothPasses(u, v, buf, isConnect, uf) && Host in u.fieldSet && AuthorityFits(buf, isConnect)
    ensures u.Total() && SameOthers(u, v)
    ensures var lo, hi, foundAt := u.fieldData[Host].off, u.End(Host), FoundAt(buf, isConnect);
            && Spans(buf, isConnect, Host, lo, hi) && v.Total() && GoodHostEnd(HostStateAt(buf, foundAt, lo, hi))
            && SplitSpans(v, HostStateAt(buf, foundAt, lo, hi), lo, hi) && SplitExactly(v, buf, foundAt, lo, hi)
  {
    hide StateAt, HostStateAt, FirstPass, SplitExactly, SplitSpans, Spans, FoundAt, AuthorityFits;
    hide RestStored, OnlyHostFieldsChanged, Has, SameOthers, Parts.Cut, Low16;
    FieldsAreLabels(u, buf, isConnect, uf);
    AuthorityIsStored(u, buf, isConnect, uf);
    CutReports(u);
    OthersStay(u.Cut(), v);
    SameAfterCut(u, v);
  }

  /** The port of that authority is stored as it is. */
  lemma PortIsStored(u: Parts, v: Parts, buf: seq<byte>, isConnect: bool, uf: Option<Field>)
    requires BothPasses(u, v, buf, isConnect, uf) && Host in u.fieldSet && AuthorityFits(buf, isConnect)
    ensures Port in v.fieldSet ==>
              && PortDigits(v, buf) && PortDigits(v.Cut(), buf)
              && v.Cut().fieldData[Port] == v.fieldData[Port]
  {
    hide StateAt, HostStateAt, FirstPass, SplitExactly, SplitSpans, Spans, FoundAt, AuthorityFits;
    hide RestStored, OnlyHostFieldsChanged, BothPasses, SameOthers, Parts.Cut;
    TrueAuthority(u, v, buf, isConnect, uf);
    var lo, hi, foundAt := u.fieldData[Host].off, u.End(Host), FoundAt(buf, isConnect);
    PartsAreStored(v, buf, isConnect, lo, hi);
    CutReports(v);
    SplitIsFilled(v, HostStateAt(buf, foundAt, lo, hi), lo, hi);
    if Port in v.fieldSet { PortIsFramed(v, buf, foundAt, lo, hi); }
  }

  lemma OthersStay(u: Parts, v: Parts)
    requires OnlyHostFieldsChanged(u, v)
    ensures SameOthers(u, v)
  {
  }

  /** The fields of a URL that fits are stored as they are. */
  lemma FieldsAreStored(u: Parts, buf: seq<byte>, isConnect: bool, uf: Option<Field>)
    requires FirstPass(u, buf, isConnect, |buf|, uf) && RestStored(u) && Fits(buf, isConnect)
    ensures u.Cut() == u
  {
    hide Spans, HostSpans, Label, StateAt, FoundAt, AuthorityFits;
    FieldsAreLabels(u, buf, isConnect, uf);
    CutIsKept(u);
  }

  lemma FitsAuthority(buf: seq<byte>, isConnect: bool)
    requires Fits(buf, isConnect)
    ensures AuthorityFits(buf, isConnect)
  {
  }

  /** If all fields fit, the report is exact and well-formed. */
  lemma ReportIsExact(u: Parts, v: Parts, buf: seq<byte>, isConnect: bool, uf: Option<Field>)
    requires BothPasses(u, v, buf, isConnect, uf) && (Schema in u.fieldSet ==> Host in u.fieldSet)
    requires Fits(buf, isConnect)
    ensures Exact(v.Cut(), buf, isConnect) && Partition(v.Cut(), buf) && Framed(v.Cut(), buf)
  {
    hide StateAt, HostStateAt, FirstPass, SplitExactly, SplitSpans, Spans, FoundAt, AuthorityFits, Fits, Exact;
    hide RestStored, OnlyHostFieldsChanged, Has, Partition, Framed;
    FieldsAreStored(u, buf, isConnect, uf);
    if Host in u.fieldSet {
      var foundAt := FoundAt(buf, isConnect);
      FitsAuthority(buf, isConnect);
      FieldsAreLabels(u, buf, isConnect, uf);
      PartsAreStored(v, buf, isConnect, u.fieldData[Host].off, u.End(Host));
      RestIsStored(u, v);
      FoundIsExact(u, v, buf, isConnect, uf);
      SplitUrlIsWellFormed(u, v, buf, isConnect, uf, foundAt);
    } else {
      FirstPassIsExact(u, buf, isConnect, uf);
      FirstPassPartitions(u, buf, isConnect, uf);
      FirstPassIsFramed(u, buf, isConnect, uf);
    }
  }

  lemma RestIsStored(u: Parts, v: Parts)
    requires u.Total() && v.Total() && u.Cut() == u && OnlyHostFieldsChanged(u, v) && RestStored(v)
    requires forall f | HostField(f) && f in v.fieldSet :: Low16(v.fieldData[f]) == v.fieldData[f]
    ensures v.Cut() == v
  {
    forall f | f in v.fieldData
      ensures Low16(v.fieldData[f]) == v.fieldData[f]
    {
      if !HostField(f) { assert u.Cut().fieldData[f] == Low16(u.fieldData[f]); }
    }
    assert v.Cut().fieldData == v.fieldData;
  }

  /** An exact report of an acceptable URL means that all fields fit. */
  lemma ReportFits(u: Parts, v: Parts, buf: seq<byte>, isConnect: bool, uf: Option<Field>)
    requires BothPasses(u, v, buf, isConnect, uf)
    requires Acceptable(buf, isConnect) && Exact(v.Cut(), buf, isConnect)
    ensures Fits(buf, isConnect)
  {
    hide StateAt, HostStateAt, FirstPass, SplitExactly, SplitSpans, Spans, FoundAt, Acceptable, Fits, Exact;
    hide RestStored, OnlyHostFieldsChanged, Has, Parts.Cut;
    FieldsAreLabels(u, buf, isConnect, uf);
    SpansOfFirstPass(u, buf, isConnect, uf);
    CutTwice(v);
    CutReports(u);
    forall f, lo: nat, hi: nat | Spans(buf, isConnect, Host, lo, hi) && HostField(f) && f in v.Cut().fieldSet
      ensures f in v.Cut().fieldData && v.Cut().End(f) <= lo % TWO16 + (hi - lo) % TWO16
    {
      SpansMeansHas(buf, isConnect, Host, lo, hi);
      OneSpan(buf, isConnect, Host, lo, hi, u.fieldData[Host].off, u.End(Host));
      CutReports(v);
      var w := u.Cut();
      SplitIsFilled(v, HostStateAt(buf, FoundAt(buf, isConnect), w.fieldData[Host].off, w.End(Host)),
                    w.fieldData[Host].off, w.End(Host));
    }
    ExactFits(v.Cut(), buf, isConnect);
  }

  lemma CutTwice(v: Parts)
    ensures v.Cut().Cut() == v.Cut()
  {
    assert v.Cut().Cut().fieldData == v.Cut().fieldData;
  }

  /** What holds of the report, after both passes. */
  lemma ReportIs(u: Parts, v: Parts, buf: seq<byte>, isConnect: bool, uf: Option<Field>)
    requires buf != [] && BothPasses(u, v, buf, isConnect, uf) && (Schema in u.fieldSet ==> Host in u.fieldSet)
    ensures var w := v.Cut();
            && w.Total() && w.fieldSet == v.fieldSet && (Schema in w.fieldSet ==> Host in w.fieldSet)
            && (Port in w.fieldSet ==> w.End(Port) <= |buf|)
            && (AuthorityFits(buf, isConnect) && Port in w.fieldSet ==> PortDigits(w, buf))
            && (AuthorityFits(buf, isConnect) ==>
                  (Acceptable(buf, isConnect)
                   <==> && (isConnect ==> w.fieldSet == {Host, Port})
                        && (Port in w.fieldSet ==> PortValue(buf, w.fieldData[Port].off, w.End(Port)) <= 0xffff)))
            && (Acceptable(buf, isConnect) ==> (Exact(w, buf, isConnect) <==> Fits(buf, isConnect)))
            && (Fits(buf, isConnect) ==> Partition(w, buf) && Framed(w, buf) && AuthorityFits(buf, isConnect))
  {
    hide StateAt, HostStateAt, FirstPass, SplitExactly, SplitSpans, Spans, FoundAt, Acceptable, Fits, Exact;
    hide RestStored, OnlyHostFieldsChanged, Has, Parts.Cut, Partition, Framed, AuthorityFits, PortValue;
    SpansOfFirstPass(u, buf, isConnect, uf);
    CutReports(u);
    CutReports(v);
    if AuthorityFits(buf, isConnect) { ReportDecides(u, v, buf, isConnect, uf); }
    if Fits(buf, isConnect) {
      FitsAuthority(buf, isConnect);
      ReportIsExact(u, v, buf, isConnect, uf);
    } else if Acceptable(buf, isConnect) && Exact(v.Cut(), buf, isConnect) {
      ReportFits(u, v, buf, isConnect, uf);
    }
    if Host in u.fieldSet {
      var w := u.Cut();
      SplitIsFilled(v, HostStateAt(buf, FoundAt(buf, isConnect), w.fieldData[Host].off, w.End(Host)),
                    w.fieldData[Host].off, w.End(Host));
      OthersStay(w, v);
    }
  }

  /** A field that was current before is reported. */
  lemma ReportedBefore(u: Parts, buf: seq<byte>, isConnect: bool, p: nat, f: Field)
    requires p <= |buf| && FirstPass(u, buf, isConnect, p, Some(f))
    ensures f in u.fieldSet
  {
  }

  /** The part of the authority that a byte continues is reported. */
  lemma SplitReports(v: Parts, s: HostState, ch: byte, lo: nat, p: nat)
    requires lo <= p && SplitSpans(v, s, lo, p) && s != HostDead
    ensures Host in v.fieldSet
    ensures s == InPort ==> Port in v.fieldSet
    ensures s == InUserinfo ==> Userinfo in v.fieldSet
  {
  }

  /** struct http_parser_url. */
  class Url {
    var fieldSet: set<Field>
    var fieldData: map<Field, Stored>
    var port: u16

    constructor ()
      ensures View().Total()
    {
      fieldSet, port := {}, 0;
      var none: Stored := Span(0, 0);
      fieldData := map[Schema := none, Host := none, Port := none, Path := none, Query := none, Fragment := none,
                       Userinfo := none];
      new;
      forall f: Field
        ensures f in fieldData
      {
        match f case Schema => case Host => case Port => case Path => case Query => case Fragment => case Userinfo =>
      }
    }

    ghost function View(): Parts
      reads this
    {
      Parts(fieldSet, fieldData)
    }

    lemma ViewIsStored()
      ensures View().Cut() == View() && RestStored(View())
    {
      forall f | f in fieldData
        ensures Low16(fieldData[f]) == fieldData[f]
      {
        var x: Stored := fieldData[f];
      }
      assert View().Cut().fieldData == View().fieldData;
    }

    /** The first loop of http_parser_parse_url; it stores the low 16 bits of the offsets and lengths in u. */
    method Classify(buf: seq<byte>, isConnect: bool)
      returns (ok: bool, foundAt: bool, ghost u: Parts, ghost uf: Option<Field>)
      requires View().Total() && fieldSet == {}
      modifies this`fieldSet, this`fieldData
      ensures ok <==> StateAt(buf, isConnect, |buf|) != Dead
      ensures ok ==> FirstPass(u, buf, isConnect, |buf|, uf) && RestStored(u) && View() == u.Cut()
      ensures ok ==> (foundAt <==> FoundAt(buf, isConnect))
      ensures View().Total()
    {
      hide UrlChar, FieldOf, Rank, FirstPass, RestStored, Parts.Cut, Low16;
      u := View();
      NothingYet(u, buf, isConnect);
      ViewIsStored();
      var s := StartState(isConnect);
      var oldUf := None;
      foundAt := false;
      var p := 0;
      while p < |buf|
        invariant p <= |buf| && s == StateAt(buf, isConnect, p) && s != Dead
        invariant u.Total() && FirstPass(u, buf, isConnect, p, oldUf) && RestStored(u)
        invariant View().Total() && View() == u.Cut()
        invariant foundAt <==> FoundBy(buf, isConnect, p)
      {
        StateStep(buf, isConnect, p);
        s := UrlChar(s, buf[p]);
        if s == Dead {
          DeadIsFinal(buf, isConnect, p + 1);
          return false, foundAt, u, oldUf;
        }
        if s == ServerWithAt {
          foundAt := true;
        }
        var next := FieldOf(s);
        if next == None {
          DelimiterByte(u, buf, isConnect, p, oldUf);
        } else {
          var f := next.value;
          FieldByte(u, buf, isConnect, p, oldUf, f);
          CutReports(u);
          if oldUf == next {
            ReportedBefore(u, buf, isConnect, p, f);
            GrowCut(u, f);
            fieldData := fieldData[f := Span(fieldData[f].off, (fieldData[f].len + 1) % TWO16)];
            u := u.Grow(f);
            assert View() == u.Cut();
          } else {
            BeginCut(u, f, p);
            fieldData := fieldData[f := Span(p % TWO16, 1)];
            fieldSet := fieldSet + {f};
            oldUf := next;
            u := u.Begin(f, p);
            assert View() == u.Cut();
          }
        }
        p := p + 1;
      }
      ok, uf := true, oldUf;
    }

    /**
     * http_parse_host; the result 1 means that the authority is malformed. It runs over the stored span of
     * the authority, and stores the low 16 bits of the offsets and lengths in v.
     */
    method ParseHost(buf: seq<byte>, foundAt: bool) returns (rt: nat, ghost v: Parts)
      requires View().Total() && Host in fieldSet && Port !in fieldSet && Userinfo !in fieldSet
      requires View().End(Host) <= |buf|
      modifies this`fieldSet, this`fieldData
      ensures v.Total() && OnlyHostFieldsChanged(old(View()), v) && RestStored(v) && View() == v.Cut()
      ensures var lo, hi := old(fieldData[Host].off), old(View().End(Host));
              && (rt == 0 <==> GoodHostEnd(HostStateAt(buf, foundAt, lo, hi)))
              && (rt == 0 ==>
                    && SplitSpans(v, HostStateAt(buf, foundAt, lo, hi), lo, hi)
                    && SplitExactly(v, buf, foundAt, lo, hi))
    {
      hide HostChar, SplitSpans, SplitExactly, OnlyHostFieldsChanged, HostByte, RestStored, Parts.Cut, Low16;
      ghost var u0 := View();
      var lo := fieldData[Host].off;
      var hi := fieldData[Host].off + fieldData[Host].len;
      fieldData := fieldData[Host := Span(lo, 0)];
      var s := if foundAt then UserinfoStart else HostStart;
      v := View();
      ViewIsStored();
      NothingSplit(v, buf, foundAt, lo);
      SpanDoesNotMatter(u0, Span(lo, 0));
      var p: nat := lo;
      while p < hi
        invariant lo <= p <= hi && s == HostStateAt(buf, foundAt, lo, p) && s != HostDead
        invariant v.Total() && OnlyHostFieldsChanged(u0, v) && RestStored(v) && View() == v.Cut()
        invariant SplitSpans(v, s, lo, p) && SplitExactly(v, buf, foundAt, lo, p)
      {
        HostStateStep(buf, foundAt, lo, p);
        var newS := HostChar(s, buf[p]);
        if newS == HostDead {
          HostDeadIsFinal(buf, foundAt, lo, p + 1, hi);
          rt := 1;
          return;
        }
        HostByteSpans(v, s, buf[p], lo, p);
        HostByteExact(v, buf, foundAt, lo, p);
        HostByteChangesHostOnly(u0, v, s, newS, p);
        SplitReports(v, s, buf[p], lo, p);
        Account(s, newS, p, v);
        v := HostByte(v, s, newS, p);
        s := newS;
        p := p + 1;
      }
      rt := if GoodHostEnd(s) then 0 else 1;
    }

    /** The switch on the new state in the loop of http_parse_host. */
    method Account(s: HostState, newS: HostState, p: nat, ghost v: Parts)
      requires v.Total() && RestStored(v) && View() == v.Cut()
      requires (newS == InHost || newS == InV6) && s != newS ==> v.fieldData[Host].len == 0
      requires HostFieldOf(newS) == Some(Host) ==> Host in v.fieldSet
      requires newS == s == InPort ==> Port in v.fieldSet
      requires newS == s == InUserinfo ==> Userinfo in v.fieldSet
      modifies this`fieldSet, this`fieldData
      ensures View() == HostByte(v, s, newS, p).Cut() && RestStored(HostByte(v, s, newS, p))
    {
      hide RestStored, Parts.Cut, HostByte, Low16;
      CutIsEmpty(v, Host);
      AccountIs(v, s, newS, p);
      match newS {
        case InHost =>
          var off := if s != InHost then p % TWO16 else fieldData[Host].off;
          fieldData := fieldData[Host := Span(off, (fieldData[Host].len + 1) % TWO16)];
        case InV6 =>
          var off := if s != InV6 then p % TWO16 else fieldData[Host].off;
          fieldData := fieldData[Host := Span(off, (fieldData[Host].len + 1) % TWO16)];
        case V6ZoneStart | InV6Zone =>
          fieldData := fieldData[Host := Span(fieldData[Host].off, (fieldData[Host].len + 1) % TWO16)];
        case InPort =>
          var span := if s != InPort then Span(p % TWO16, 0) else fieldData[Port];
          if s != InPort { fieldSet := fieldSet + {Port}; }
          fieldData := fieldData[Port := Span(span.off, (span.len + 1) % TWO16)];
        case InUserinfo =>
          var span := if s != InUserinfo then Span(p % TWO16, 0) else fieldData[Userinfo];
          if s != InUserinfo { fieldSet := fieldSet + {Userinfo}; }
          fieldData := fieldData[Userinfo := Span(span.off, (span.len + 1) % TWO16)];
        case _ =>
      }
    }

    /**
     * The port conversion at the end of http_parser_parse_url, which relies on the bytes being digits: they
     * are, unless an authority was too long to be stored.
     */
    method ConvertPort(buf: seq<byte>) returns (rt: nat)
      requires View().Total() && View().End(Port) <= |buf|
      modifies this`port
      ensures (forall i | fieldData[Port].off <= i < View().End(Port) :: IsDigit(buf[i])) ==>
                && (rt == 0 <==> PortValue(buf, fieldData[Port].off, View().End(Port)) <= 0xffff)
                && (rt == 0 ==> port == PortValue(buf, fieldData[Port].off, View().End(Port)))
    {
      ghost var digits := forall i | fieldData[Port].off <= i < View().End(Port) :: IsDigit(buf[i]);
      var v: u64 := 0;
      var p: nat := fieldData[Port].off;
      var end := fieldData[Port].off + fieldData[Port].len;
      while p < end
        invariant fieldData[Port].off <= p <= end && v <= 0xffff
        invariant digits ==> v == PortValue(buf, fieldData[Port].off, p)
      {
        v := v * 10;
        v := (v + (Char(buf[p]) - 48)) % TWO64;
        p := p + 1;
        if v > 0xffff {
          if digits { PortValueGrows(buf, fieldData[Port].off, p, end); }
          return 1;
        }
      }
      port := v;
      rt := 0;
    }

    /**
     * http_parser_parse_url; any result but 0 rejects the URL. It is right as long as the authority can be
     * stored, and what it reports of an acceptable URL is exact if and only if all fields can be stored.
     */
    method ParseUrl(buf: seq<byte>, isConnect: bool) returns (rt: nat)
      requires View().Total()
      modifies this
      ensures AuthorityFits(buf, isConnect) ==> (rt == 0 <==> Acceptable(buf, isConnect))
      ensures rt == 0 && Acceptable(buf, isConnect) ==>
                (Exact(View(), buf, isConnect) <==> Fits(buf, isConnect))
      ensures rt == 0 && AuthorityFits(buf, isConnect) ==> PortOk(View(), buf, port)
      ensures rt == 0 && Fits(buf, isConnect) ==> Partition(View(), buf) && Framed(View(), buf)
      ensures rt == 0 ==> (Schema in fieldSet ==> Host in fieldSet) && (isConnect ==> fieldSet == {Host, Port})
    {
      hide StateAt, HostStateAt, FirstPass, SplitExactly, SplitSpans, Partition, Framed, Exact, IsPart;
      hide Acceptable, Spans, AuthorityOk, FoundAt, Has, AuthorityFits, Fits, Parts.Cut, RestStored;
      hide OnlyHostFieldsChanged, SameOthers, HostSpans, HostHas, PortValue;
      NotAcceptable(buf, isConnect);
      if buf == [] {
        return 1;
      }
      port := 0;
      fieldSet := {};
      var ok, foundAt, u, uf := Classify(buf, isConnect);
      if !ok {
        return 1;
      }
      SpansOfFirstPass(u, buf, isConnect, uf);
      CutReports(u);
      FieldsAreLabels(u, buf, isConnect, uf);
      ghost var v := u;
      if Host !in fieldSet { NoAuthority(u, buf, isConnect, uf); }
      if Schema in fieldSet && Host !in fieldSet {
        return 1;
      }
      if Host in fieldSet {
        if AuthorityFits(buf, isConnect) { AuthorityIsStored(u, buf, isConnect, uf); }
        rt, v := ParseHost(buf, foundAt);
        if rt != 0 {
          if AuthorityFits(buf, isConnect) { BadEnd(buf, isConnect, u.fieldData[Host].off, u.End(Host)); }
          return 1;
        }
      }
      ReportIs(u, v, buf, isConnect, uf);
      if isConnect && fieldSet != {Host, Port} {
        return 1;
      }
      if Port in fieldSet {
        rt := ConvertPort(buf);
        if rt != 0 {
          return 1;
        }
      }
      return 0;
    }
  }

  // ----- A URL that does not fit -----

  /** A slash and n letters. */
  function LongPath(n: nat): seq<byte> { seq(n + 1, i => if i == 0 then SLASH else 97) }

  lemma {:induction false} LongPathState(n: nat, i: nat)
    requires 0 < i <= n + 1
    ensures StateAt(LongPath(n), false, i) == InPath
  {
    assert StateAt(LongPath(n), false, 0) == SpacesBeforeUrl;
    if i > 1 { LongPathState(n, i - 1); }
  }

  /** It is acceptable at every length, but from 65535 letters on it is not reported exactly. */
  lemma LongPathIsCut(n: nat)
    ensures var buf := LongPath(n);
            Acceptable(buf, false) && (Fits(buf, false) <==> n + 1 < TWO16)
  {
    hide UrlChar, StateAt, HostSpans;
    var buf := LongPath(n);
    forall i | 0 <= i < |buf|
      ensures Label(buf, false, i) == Some(Path)
    {
      LongPathState(n, i + 1);
    }
    LongPathState(n, |buf|);
    assert Spans(buf, false, Path, 0, |buf|);
    if n + 1 < TWO16 { ShortFits(buf, false); }
  }

  lemma NotAcceptable(buf: seq<byte>, isConnect: bool)
    ensures buf == [] || StateAt(buf, isConnect, |buf|) == Dead ==> !Acceptable(buf, isConnect)
  {
  }

  lemma BadEnd(buf: seq<byte>, isConnect: bool, lo: nat, hi: nat)
    requires Spans(buf, isConnect, Host, lo, hi) && lo <= hi <= |buf|
    requires !GoodHostEnd(HostStateAt(buf, FoundAt(buf, isConnect), lo, hi))
    ensures !Acceptable(buf, isConnect)
  {
    hide Spans, HostStateAt, HostHas, HostSpans, FoundAt, Acceptable;
    BadAuthority(buf, isConnect, lo, hi);
  }

  lemma SpansOfFirstPass(u: Parts, buf: seq<byte>, isConnect: bool, uf: Option<Field>)
    requires FirstPass(u, buf, isConnect, |buf|, uf)
    ensures Port !in u.fieldSet && Userinfo !in u.fieldSet
    ensures u.Total() && forall f | f in u.fieldSet :: u.End(f) <= |buf|
  {
  }

  lemma PartitionInBuffer(u: Parts, buf: seq<byte>)
    requires Partition(u, buf)
    ensures u.Total() && forall f | f in u.fieldSet :: u.End(f) <= |buf|
  {
  }

  lemma {:induction false} DeadIsFinal(buf: seq<byte>, isConnect: bool, i: nat)
    requires i <= |buf| && StateAt(buf, isConnect, i) == Dead
    ensures StateAt(buf, isConnect, |buf|) == Dead
    decreases |buf| - i
  {
    if i < |buf| {
      DeadIsFinal(buf, isConnect, i + 1);
    }
  }
}
