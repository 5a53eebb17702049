/**
 * Which strings http_parser_parse_url accepts and what its fields are, by positions and byte ranges: where
 * the schema, the authority, the path, the query and the fragment end, and which bytes may stand in each.
 */
module HttpUrlGrammar {
  import opened Bytes
  import opened Wrappers
  import opened HttpUrl

  // ----- Bytes -----

  predicate Letter(c: byte) { 65 <= c <= 90 || 97 <= c <= 122 }

  predicate Visible(c: byte) { 33 <= c <= 126 }

  /** Letters, digits, and any of "-_.!~*'()%;:&=+$,". */
  predicate UserByte(c: byte) {
    Letter(c) || c == 33 || 36 <= c <= 46 || 48 <= c <= 59 || c == 61 || c == 95 || c == 126
  }

  /** Those, the at sign and square brackets. */
  predicate AuthorityByte(c: byte) { UserByte(c) || c == 64 || c == 91 || c == 93 }

  predicate NameByte(c: byte) { Letter(c) || 48 <= c <= 57 || c == 45 || c == 46 }

  predicate AddressByte(c: byte) { 48 <= c <= 58 || 65 <= c <= 70 || 97 <= c <= 102 || c == 46 }

  predicate ZoneByte(c: byte) { NameByte(c) || c == 37 || c == 95 || c == 126 }

  predicate DigitByte(c: byte) { 48 <= c <= 57 }

  // ----- Positions -----

  /** The first position from lo to hi at which one of the bytes stands, or hi. */
  function Until(buf: seq<byte>, lo: nat, hi: nat, stop: set<byte>): (p: nat)
    requires lo <= hi <= |buf|
    ensures lo <= p <= hi && (forall i | lo <= i < p :: buf[i] !in stop) && (p < hi ==> buf[p] in stop)
    decreases hi - lo
  {
    if lo == hi || buf[lo] in stop then lo else Until(buf, lo + 1, hi, stop)
  }

  /** The first position from lo on without a letter, and without a number sign. */
  function AfterLetters(buf: seq<byte>, lo: nat): (p: nat)
    requires lo <= |buf|
    ensures lo <= p <= |buf| && (forall i | lo <= i < p :: Letter(buf[i])) && (p < |buf| ==> !Letter(buf[p]))
    decreases |buf| - lo
  {
    if lo == |buf| || !Letter(buf[lo]) then lo else AfterLetters(buf, lo + 1)
  }

  function AfterHashes(buf: seq<byte>, lo: nat): (p: nat)
    requires lo <= |buf|
    ensures lo <= p <= |buf| && (forall i | lo <= i < p :: buf[i] == 35) && (p < |buf| ==> buf[p] != 35)
    decreases |buf| - lo
  {
    if lo == |buf| || buf[lo] != 35 then lo else AfterHashes(buf, lo + 1)
  }

  /** Where the sections of a URL end: each begins where the one before it ends, but for its delimiters. */
  datatype Sections = Sections(schema: nat, start: nat, end: nat, path: nat, query: nat, fragment: nat)

  /** A URL that begins with a slash or an asterisk has no schema and no authority. */
  predicate OriginForm(buf: seq<byte>, isConnect: bool) { !isConnect && buf != [] && (buf[0] == 47 || buf[0] == 42) }

  /**
   * The schema is letters, and three bytes follow it; CONNECT begins with the authority. The authority ends at a
   * slash or a question mark, the path at a question mark or a number sign, the query at a number sign; the
   * fragment begins after a run of number signs.
   */
  function SectionsOf(buf: seq<byte>, isConnect: bool): (c: Sections)
    ensures c.schema <= c.start <= c.end <= c.path <= c.query <= c.fragment <= |buf|
    ensures OriginForm(buf, isConnect) ==> c.end == 0
    ensures isConnect ==> c.start == 0
    ensures !OriginForm(buf, isConnect) && !isConnect ==> c.start <= c.schema + 3
    ensures !OriginForm(buf, isConnect) && !isConnect && c.start < c.schema + 3 ==> c.start == |buf|
  {
    var origin := OriginForm(buf, isConnect);
    var schema := if isConnect || origin then 0 else AfterLetters(buf, 0);
    var start := if isConnect || origin then 0 else if schema + 3 <= |buf| then schema + 3 else |buf|;
    var end := if origin then 0 else Until(buf, start, |buf|, {47, 63});
    var path := Until(buf, end, |buf|, {63, 35});
    var query := Until(buf, path, |buf|, {35});
    Sections(schema, start, end, path, query, AfterHashes(buf, query))
  }

  /** The byte may stand where it stands: the delimiters of the schema, no two at signs in a row, visible bytes. */
  predicate ByteOk(buf: seq<byte>, isConnect: bool, i: nat)
    requires i < |buf|
  {
    var c := SectionsOf(buf, isConnect);
    if i < c.schema then Letter(buf[i])
    else if i < c.start then c.schema > 0 && buf[i] == if i == c.schema then 58 else 47
    else if i < c.end then AuthorityByte(buf[i]) && !(buf[i] == 64 && c.start < i && buf[i - 1] == 64)
    else Visible(buf[i])
  }

  predicate BytesOk(buf: seq<byte>, isConnect: bool, n: nat)
    requires n <= |buf|
  {
    forall i | 0 <= i < n :: ByteOk(buf, isConnect, i)
  }

  /** The section of a field, empty if the URL does not have it. */
  function Section(buf: seq<byte>, isConnect: bool, f: Field): (r: (nat, nat))
    ensures r.0 <= r.1 <= |buf|
  {
    var c := SectionsOf(buf, isConnect);
    match f
    case Schema => (0, c.schema)
    case Host => (c.start, c.end)
    case Path => (c.end, c.path)
    case Query => (if c.path < c.query then c.path + 1 else c.query, c.query)
    case Fragment => (c.fragment, |buf|)
    case _ => (0, 0)
  }

  // ----- The first pass -----

  /** The state after byte i, by the section it is in. */
  function StateOf(buf: seq<byte>, isConnect: bool, i: nat): State
    requires i < |buf|
  {
    var c := SectionsOf(buf, isConnect);
    if i < c.schema then InSchema
    else if i < c.start then
      if i == c.schema then SchemaSlash else if i == c.schema + 1 then SchemaSlashSlash else ServerStart
    else if i < c.end then if buf[i] == 64 then ServerWithAt else Server
    else if i < c.path then InPath
    else if i < c.query then if i == c.path then QueryStart else InQuery
    else if i < c.fragment then FragmentStart
    else InFragment
  }

  function StateBefore(buf: seq<byte>, isConnect: bool, i: nat): State
    requires i <= |buf|
  {
    if i == 0 then StartState(isConnect) else StateOf(buf, isConnect, i - 1)
  }

  lemma SectionBounds(buf: seq<byte>, isConnect: bool)
    ensures var c := SectionsOf(buf, isConnect);
            && (forall i | 0 <= i < c.schema :: Letter(buf[i]))
            && (!OriginForm(buf, isConnect) && !isConnect && c.schema < |buf| ==> !Letter(buf[c.schema]))
            && (forall i | c.start <= i < c.end :: buf[i] != 47 && buf[i] != 63)
            && (!OriginForm(buf, isConnect) && c.end < |buf| ==> buf[c.end] == 47 || buf[c.end] == 63)
            && (forall i | c.end <= i < c.path :: buf[i] != 63 && buf[i] != 35)
            && (c.path < |buf| ==> buf[c.path] == 63 || buf[c.path] == 35)
            && (forall i | c.path <= i < c.query :: buf[i] != 35)
            && (c.query < |buf| ==> buf[c.query] == 35)
            && (forall i | c.query <= i < c.fragment :: buf[i] == 35)
            && (c.fragment < |buf| ==> buf[c.fragment] != 35)
  {
  }

  /** One byte of the first pass. */
  lemma StateStepIs(buf: seq<byte>, isConnect: bool, i: nat)
    requires i < |buf| && (i > 0 ==> ByteOk(buf, isConnect, i - 1))
    ensures UrlChar(StateBefore(buf, isConnect, i), buf[i])
         == if ByteOk(buf, isConnect, i) then StateOf(buf, isConnect, i) else Dead
  {
    hide UrlChar, ByteOk, StateOf, StateBefore, SectionsOf;
    var c := SectionsOf(buf, isConnect);
    if i < c.start { SchemaStep(buf, isConnect, i); }
    else if i < c.end { AuthorityStep(buf, isConnect, i); }
    else { RestStep(buf, isConnect, i); }
  }

  lemma SchemaStep(buf: seq<byte>, isConnect: bool, i: nat)
    requires i < SectionsOf(buf, isConnect).start && (i > 0 ==> ByteOk(buf, isConnect, i - 1))
    ensures UrlChar(StateBefore(buf, isConnect, i), buf[i])
         == if ByteOk(buf, isConnect, i) then StateOf(buf, isConnect, i) else Dead
  {
    hide SectionsOf;
    SectionBounds(buf, isConnect);
  }

  lemma AuthorityStep(buf: seq<byte>, isConnect: bool, i: nat)
    requires SectionsOf(buf, isConnect).start <= i < SectionsOf(buf, isConnect).end
    ensures UrlChar(StateBefore(buf, isConnect, i), buf[i])
         == if ByteOk(buf, isConnect, i) then StateOf(buf, isConnect, i) else Dead
  {
    hide SectionsOf;
    SectionBounds(buf, isConnect);
  }

  lemma RestStep(buf: seq<byte>, isConnect: bool, i: nat)
    requires SectionsOf(buf, isConnect).end <= i < |buf|
    ensures UrlChar(StateBefore(buf, isConnect, i), buf[i])
         == if ByteOk(buf, isConnect, i) then StateOf(buf, isConnect, i) else Dead
  {
    hide SectionsOf;
    SectionBounds(buf, isConnect);
  }

  /** The first pass is alive exactly as long as every byte may stand where it stands. */
  lemma {:induction false} StatesAre(buf: seq<byte>, isConnect: bool, i: nat)
    requires i <= |buf|
    ensures StateAt(buf, isConnect, i) == if BytesOk(buf, isConnect, i) then StateBefore(buf, isConnect, i) else Dead
  {
    hide UrlChar, ByteOk, StateOf, SectionsOf;
    if i > 0 {
      StatesAre(buf, isConnect, i - 1);
      if BytesOk(buf, isConnect, i - 1) { StateStepIs(buf, isConnect, i - 1); }
      DeadStays(buf[i - 1]);
      assert BytesOk(buf, isConnect, i) <==> BytesOk(buf, isConnect, i - 1) && ByteOk(buf, isConnect, i - 1);
    }
  }

  lemma DeadStays(ch: byte)
    ensures UrlChar(Dead, ch) == Dead
  {
  }

  /** Every byte of a section belongs to its field, and no other byte does. */
  lemma LabelIs(buf: seq<byte>, isConnect: bool, f: Field, i: nat)
    requires BytesOk(buf, isConnect, |buf|) && i < |buf|
    ensures var (lo, hi) := Section(buf, isConnect, f);
            Label(buf, isConnect, i) == Some(f) <==> lo <= i < hi
  {
    hide ByteOk, SectionsOf;
    StatesAre(buf, isConnect, i + 1);
  }

  /** The first pass: which strings it accepts, and the fields it finds. */
  lemma FirstPassIs(buf: seq<byte>, isConnect: bool)
    ensures StateAt(buf, isConnect, |buf|) != Dead <==> BytesOk(buf, isConnect, |buf|)
    ensures BytesOk(buf, isConnect, |buf|) ==>
              forall f ::
                var (lo, hi) := Section(buf, isConnect, f);
                (Has(buf, isConnect, f) <==> lo < hi) && (lo < hi ==> Spans(buf, isConnect, f, lo, hi))
  {
    hide ByteOk, SectionsOf, Section, Label, StateOf;
    StatesAre(buf, isConnect, |buf|);
    if BytesOk(buf, isConnect, |buf|) {
      StateBeforeLives(buf, isConnect, |buf|);
      forall f
        ensures var (lo, hi) := Section(buf, isConnect, f);
                (Has(buf, isConnect, f) <==> lo < hi) && (lo < hi ==> Spans(buf, isConnect, f, lo, hi))
      {
        var (lo, hi) := Section(buf, isConnect, f);
        forall i | 0 <= i < |buf|
          ensures Label(buf, isConnect, i) == Some(f) <==> lo <= i < hi
        {
          LabelIs(buf, isConnect, f, i);
        }
        if lo < hi { assert Label(buf, isConnect, lo) == Some(f); }
      }
    }
  }

  lemma StateBeforeLives(buf: seq<byte>, isConnect: bool, i: nat)
    requires i <= |buf|
    ensures StateBefore(buf, isConnect, i) != Dead
  {
    hide SectionsOf;
  }

  // ----- The authority -----

  /** The authority has an at sign. */
  predicate HasAt(buf: seq<byte>, lo: nat, hi: nat)
    requires lo <= hi <= |buf|
  {
    exists i | lo <= i < hi :: buf[i] == 64
  }

  /**
   * Where its parts end: the user information, the host, whose zone begins at a percent sign if it is an address
   * in brackets, and what is after the host.
   */
  datatype Authority = Authority(user: nat, first: nat, bracket: bool, zone: nat, host: nat, after: nat)

  /**
   * The user information ends at the first at sign, if there is one; the host in brackets at the closing one,
   * another host at a colon.
   */
  function PartsOf(buf: seq<byte>, lo: nat, hi: nat): (c: Authority)
    requires lo <= hi <= |buf|
    ensures lo <= c.user <= c.first <= c.zone <= c.host <= c.after <= hi
    ensures !HasAt(buf, lo, hi) ==> c.user == lo
    ensures HasAt(buf, lo, hi) ==> c.user < c.first
  {
    var at := Until(buf, lo, hi, {64});
    var user := if HasAt(buf, lo, hi) then at else lo;
    var begin := if HasAt(buf, lo, hi) then at + 1 else lo;
    var bracket := begin < hi && buf[begin] == 91;
    var first := if bracket then begin + 1 else begin;
    var host := Until(buf, first, hi, if bracket then {93} else {58});
    Authority(user, first, bracket, if bracket then Until(buf, first, host, {37}) else host, host,
          if bracket && host < hi then host + 1 else host)
  }

  /** The byte may stand where it stands; a host is not empty, and neither are the parts of an address. */
  predicate HostByteOk(buf: seq<byte>, lo: nat, hi: nat, i: nat)
    requires lo <= i < hi <= |buf|
  {
    var c := PartsOf(buf, lo, hi);
    if i < c.user then UserByte(buf[i])
    else if i < c.first then buf[i] == (if i == c.user && HasAt(buf, lo, hi) then 64 else 91)
    else if !c.bracket && i < c.host then NameByte(buf[i])
    else if i < c.zone then AddressByte(buf[i])
    else if i < c.host then (if i == c.zone then c.first < c.zone else ZoneByte(buf[i]))
    else if i < c.after then c.first < c.host && c.zone + 1 != c.host
    else if i == c.after then buf[i] == 58 && c.first < c.host
    else DigitByte(buf[i])
  }

  predicate HostBytesOk(buf: seq<byte>, lo: nat, hi: nat, n: nat)
    requires lo <= n <= hi <= |buf|
  {
    forall i | lo <= i < n :: HostByteOk(buf, lo, hi, i)
  }

  /** There is a host, its bracket is closed, and after a colon there is a port. */
  predicate EndOk(buf: seq<byte>, lo: nat, hi: nat)
    requires lo <= hi <= |buf|
  {
    var c := PartsOf(buf, lo, hi);
    c.first < c.host && (c.bracket ==> c.host < hi) && c.after + 1 != hi
  }

  /** The state after byte i. */
  function HostStateOf(buf: seq<byte>, lo: nat, hi: nat, i: nat): HostState
    requires lo <= i < hi <= |buf|
  {
    var c := PartsOf(buf, lo, hi);
    if i < c.user then InUserinfo
    else if i < c.first then if i == c.user && HasAt(buf, lo, hi) then HostStart else V6Start
    else if !c.bracket && i < c.host then InHost
    else if i < c.zone then InV6
    else if i < c.host then if i == c.zone then V6ZoneStart else InV6Zone
    else if i < c.after then V6End
    else if i == c.after then PortStart
    else InPort
  }

  function HostStateBefore(buf: seq<byte>, lo: nat, hi: nat, i: nat): HostState
    requires lo <= i <= hi <= |buf|
  {
    if i > lo then HostStateOf(buf, lo, hi, i - 1) else if HasAt(buf, lo, hi) then UserinfoStart else HostStart
  }

  lemma PartBounds(buf: seq<byte>, lo: nat, hi: nat)
    requires lo <= hi <= |buf|
    ensures var c := PartsOf(buf, lo, hi);
            && (forall i | lo <= i < c.user :: buf[i] != 64)
            && (HasAt(buf, lo, hi) ==> c.user < hi && buf[c.user] == 64)
            && c.first == c.user + (if HasAt(buf, lo, hi) then 1 else 0) + (if c.bracket then 1 else 0)
            && (c.bracket ==> buf[c.first - 1] == 91)
            && (!c.bracket && c.first < hi ==> buf[c.first] != 91)
            && (forall i | c.first <= i < c.host :: buf[i] != if c.bracket then 93 else 58)
            && (c.host < hi ==> buf[c.host] == if c.bracket then 93 else 58)
            && (c.bracket ==> forall i | c.first <= i < c.zone :: buf[i] != 37)
            && (c.zone < c.host ==> buf[c.zone] == 37)
            && (!c.bracket ==> c.zone == c.host && c.after == c.host)
            && (c.bracket ==> c.after == if c.host < hi then c.host + 1 else hi)
  {
  }

  lemma HostStepIs(buf: seq<byte>, lo: nat, hi: nat, i: nat)
    requires lo <= i < hi <= |buf| && (i > lo ==> HostByteOk(buf, lo, hi, i - 1))
    ensures HostChar(HostStateBefore(buf, lo, hi, i), buf[i])
         == if HostByteOk(buf, lo, hi, i) then HostStateOf(buf, lo, hi, i) else HostDead
  {
    hide PartsOf, HasAt;
    PartBounds(buf, lo, hi);
  }

  /** The second pass is alive exactly as long as every byte may stand where it stands. */
  lemma {:induction false} HostStatesAre(buf: seq<byte>, lo: nat, hi: nat, i: nat)
    requires lo <= i <= hi <= |buf|
    ensures HostStateAt(buf, HasAt(buf, lo, hi), lo, i)
         == if HostBytesOk(buf, lo, hi, i) then HostStateBefore(buf, lo, hi, i) else HostDead
    decreases i
  {
    hide HostChar, HostByteOk, HostStateOf, PartsOf, HasAt;
    if i > lo {
      HostStatesAre(buf, lo, hi, i - 1);
      if HostBytesOk(buf, lo, hi, i - 1) { HostStepIs(buf, lo, hi, i - 1); }
      HostDeadStays(buf[i - 1]);
      assert HostBytesOk(buf, lo, hi, i) <==> HostBytesOk(buf, lo, hi, i - 1) && HostByteOk(buf, lo, hi, i - 1);
    }
  }

  lemma HostDeadStays(ch: byte)
    ensures HostChar(HostDead, ch) == HostDead
  {
  }

  /** The part of the authority that is a field, empty if the authority does not have it. */
  function Part(buf: seq<byte>, lo: nat, hi: nat, f: Field): (r: (nat, nat))
    requires lo <= hi <= |buf|
    ensures lo <= r.0 <= r.1 <= hi
  {
    var c := PartsOf(buf, lo, hi);
    match f
    case Userinfo => (lo, c.user)
    case Host => (c.first, c.host)
    case Port => (if c.after < hi then c.after + 1 else hi, hi)
    case _ => (lo, lo)
  }

  /** Which authorities are accepted, and the parts found in them. */
  lemma SecondPassIs(buf: seq<byte>, lo: nat, hi: nat)
    requires lo < hi <= |buf|
    ensures var foundAt := HasAt(buf, lo, hi);
            && (GoodHostEnd(HostStateAt(buf, foundAt, lo, hi)) <==> HostBytesOk(buf, lo, hi, hi) && EndOk(buf, lo, hi))
            && (HostBytesOk(buf, lo, hi, hi) ==>
                  forall f ::
                    var (a, b) := Part(buf, lo, hi, f);
                    && (HostHas(buf, foundAt, lo, hi, f) <==> a < b)
                    && (a < b ==> HostSpans(buf, foundAt, lo, hi, f, a, b)))
  {
    hide HostByteOk, PartsOf, Part, HostLabel, HasAt, HostStateOf;
    var foundAt := HasAt(buf, lo, hi);
    HostStatesAre(buf, lo, hi, hi);
    EndStateIs(buf, lo, hi);
    if HostBytesOk(buf, lo, hi, hi) {
      forall f
        ensures var (a, b) := Part(buf, lo, hi, f);
                && (HostHas(buf, foundAt, lo, hi, f) <==> a < b)
                && (a < b ==> HostSpans(buf, foundAt, lo, hi, f, a, b))
      {
        var (a, b) := Part(buf, lo, hi, f);
        forall i | lo <= i < hi
          ensures HostLabel(buf, foundAt, lo, i) == Some(f) <==> a <= i < b
        {
          HostLabelIs(buf, lo, hi, f, i);
        }
        if a < b { assert HostLabel(buf, foundAt, lo, a) == Some(f); }
      }
    }
  }

  lemma EndStateIs(buf: seq<byte>, lo: nat, hi: nat)
    requires lo < hi <= |buf|
    ensures HostBytesOk(buf, lo, hi, hi) ==>
              (GoodHostEnd(HostStateBefore(buf, lo, hi, hi)) <==> EndOk(buf, lo, hi))
  {
    hide PartsOf, HasAt;
    PartBounds(buf, lo, hi);
    var c := PartsOf(buf, lo, hi);
    if HostBytesOk(buf, lo, hi, hi) && c.after < hi { assert HostByteOk(buf, lo, hi, c.after); }
    if HostBytesOk(buf, lo, hi, hi) && c.host < hi { assert HostByteOk(buf, lo, hi, c.host); }
  }

  lemma HostLabelIs(buf: seq<byte>, lo: nat, hi: nat, f: Field, i: nat)
    requires lo <= i < hi <= |buf| && HostBytesOk(buf, lo, hi, hi)
    ensures var (a, b) := Part(buf, lo, hi, f);
            HostLabel(buf, HasAt(buf, lo, hi), lo, i) == Some(f) <==> a <= i < b
  {
    hide HostByteOk, PartsOf, HasAt;
    HostStatesAre(buf, lo, hi, i + 1);
    PartBounds(buf, lo, hi);
  }

  /** The first pass has seen the at sign. */
  lemma FoundAtIs(buf: seq<byte>, isConnect: bool)
    requires BytesOk(buf, isConnect, |buf|)
    ensures var c := SectionsOf(buf, isConnect);
            FoundAt(buf, isConnect) <==> HasAt(buf, c.start, c.end)
  {
    hide ByteOk, SectionsOf;
    var c := SectionsOf(buf, isConnect);
    forall i | 0 < i <= |buf|
      ensures StateAt(buf, isConnect, i) == ServerWithAt <==> c.start <= i - 1 < c.end && buf[i - 1] == 64
    {
      StatesAre(buf, isConnect, i);
    }
    if HasAt(buf, c.start, c.end) {
      var i :| c.start <= i < c.end && buf[i] == 64;
      assert StateAt(buf, isConnect, i + 1) == ServerWithAt;
    }
  }

  // ----- The grammar -----

  /** The decimal number that the digits from lo to hi write. */
  function Decimal(buf: seq<byte>, lo: nat, hi: nat): int
    requires lo <= hi <= |buf|
  {
    if lo == hi then 0 else 10 * Decimal(buf, lo, hi - 1) + (buf[hi - 1] as int - 48)
  }

  predicate IsAuthority(buf: seq<byte>, isConnect: bool, lo: nat, hi: nat)
    requires lo < hi <= |buf|
  {
    var (user, port) := (Part(buf, lo, hi, Userinfo), Part(buf, lo, hi, Port));
    && HostBytesOk(buf, lo, hi, hi) && EndOk(buf, lo, hi)
    && Decimal(buf, port.0, port.1) <= 65535
    && (isConnect ==> port.0 < port.1 && user.0 == user.1)
  }

  /** A URL: every byte may stand where it stands, a schema has an authority, and CONNECT names host and port only. */
  predicate IsUrl(buf: seq<byte>, isConnect: bool) {
    var c := SectionsOf(buf, isConnect);
    && buf != [] && BytesOk(buf, isConnect, |buf|)
    && (c.schema > 0 ==> c.start < c.end)
    && (c.start < c.end ==> IsAuthority(buf, isConnect, c.start, c.end))
    && (isConnect ==> c.start < c.end == c.path && c.query <= c.path + 1 && c.fragment == |buf|)
  }

  lemma {:induction false} DecimalIs(buf: seq<byte>, lo: nat, hi: nat)
    requires lo <= hi <= |buf| && forall i | lo <= i < hi :: IsDigit(buf[i])
    ensures Decimal(buf, lo, hi) == PortValue(buf, lo, hi)
    decreases hi
  {
    if lo < hi { DecimalIs(buf, lo, hi - 1); }
  }

  lemma PortDigits(buf: seq<byte>, lo: nat, hi: nat)
    requires lo < hi <= |buf| && HostBytesOk(buf, lo, hi, hi)
    ensures var (a, b) := Part(buf, lo, hi, Port);
            (forall i | a <= i < b :: IsDigit(buf[i])) && Decimal(buf, a, b) == PortValue(buf, a, b)
  {
    hide HasAt;
    PartBounds(buf, lo, hi);
    hide PartsOf;
    var (a, b) := Part(buf, lo, hi, Port);
    forall i | a <= i < b
      ensures IsDigit(buf[i])
    {
      assert HostByteOk(buf, lo, hi, i);
    }
    DecimalIs(buf, a, b);
  }

  /** The authority is acceptable exactly if it is one by the grammar. */
  lemma AuthorityOkIs(buf: seq<byte>, isConnect: bool, lo: nat, hi: nat)
    requires lo < hi <= |buf| && FoundAt(buf, isConnect) == HasAt(buf, lo, hi)
    ensures AuthorityOk(buf, isConnect, lo, hi) <==> IsAuthority(buf, isConnect, lo, hi)
  {
    hide HostBytesOk, EndOk, HasAt, FoundAt, HostStateAt, HostHas, HostSpans, PortValue, Decimal, Part;
    var foundAt := HasAt(buf, lo, hi);
    SecondPassIs(buf, lo, hi);
    if HostBytesOk(buf, lo, hi, hi) {
      PortDigits(buf, lo, hi);
      var (a, b) := Part(buf, lo, hi, Port);
      forall a', b' | HostSpans(buf, foundAt, lo, hi, Port, a', b')
        ensures a < b && a' == a && b' == b
      {
        SpansHas(buf, foundAt, lo, hi, Port, a', b');
        OneHostSpan(buf, foundAt, lo, hi, Port, a, b, a', b');
      }
      NoDigits(buf, a);
    }
  }

  lemma NoDigits(buf: seq<byte>, a: nat)
    requires a <= |buf|
    ensures Decimal(buf, a, a) == 0
  {
  }

  /** http_parser_parse_url accepts exactly the strings of the grammar. */
  lemma AcceptableIsUrl(buf: seq<byte>, isConnect: bool)
    ensures Acceptable(buf, isConnect) <==> IsUrl(buf, isConnect)
  {
    hide BytesOk, SectionsOf, StateAt, Has, Spans, AuthorityOk, IsAuthority, FoundAt, HasAt;
    FirstPassIs(buf, isConnect);
    if BytesOk(buf, isConnect, |buf|) {
      var c := SectionsOf(buf, isConnect);
      FieldsAreSections(buf, isConnect);
      if c.start < c.end {
        FoundAtIs(buf, isConnect);
        AuthorityOkIs(buf, isConnect, c.start, c.end);
        forall lo: nat, hi: nat | Spans(buf, isConnect, Host, lo, hi)
          ensures lo == c.start && hi == c.end
        {
          OneSpan(buf, isConnect, Host, c.start, c.end, lo, hi);
        }
      }
    }
  }

  lemma FieldsAreSections(buf: seq<byte>, isConnect: bool)
    requires BytesOk(buf, isConnect, |buf|)
    ensures var c := SectionsOf(buf, isConnect);
            && (Has(buf, isConnect, Schema) <==> c.schema > 0)
            && (Has(buf, isConnect, Host) <==> c.start < c.end)
            && (c.start < c.end ==> Spans(buf, isConnect, Host, c.start, c.end))
            && (Has(buf, isConnect, Path) <==> c.end < c.path)
            && (Has(buf, isConnect, Query) <==> c.path + 1 < c.query)
            && (Has(buf, isConnect, Fragment) <==> c.fragment < |buf|)
  {
    hide BytesOk, SectionsOf, StateAt, Has, Spans;
    FirstPassIs(buf, isConnect);
    SectionIs(buf, isConnect);
  }

  lemma SectionIs(buf: seq<byte>, isConnect: bool)
    ensures var c := SectionsOf(buf, isConnect);
            && Section(buf, isConnect, Schema) == (0, c.schema) && Section(buf, isConnect, Host) == (c.start, c.end)
            && Section(buf, isConnect, Path) == (c.end, c.path)
            && Section(buf, isConnect, Query) == (if c.path < c.query then c.path + 1 else c.query, c.query)
            && Section(buf, isConnect, Fragment) == (c.fragment, |buf|)
  {
  }

  /** Where a field begins and ends, by the grammar alone. */
  function Extent(buf: seq<byte>, isConnect: bool, f: Field): (r: (nat, nat))
    ensures r.0 <= r.1 <= |buf|
  {
    var c := SectionsOf(buf, isConnect);
    if HostField(f) then if c.start < c.end then Part(buf, c.start, c.end, f) else (0, 0)
    else Section(buf, isConnect, f)
  }

  lemma PartIsExtent(buf: seq<byte>, isConnect: bool, f: Field, i: nat)
    requires IsUrl(buf, isConnect) && i < |buf|
    ensures var (lo, hi) := Extent(buf, isConnect, f);
            IsPart(buf, isConnect, f, i) <==> lo <= i < hi
  {
    hide BytesOk, SectionsOf, Label, Has, Spans, Part, Section, HostLabel, IsPart, HasAt, FoundAt;
    var c := SectionsOf(buf, isConnect);
    if !HostField(f) {
      LabelIs(buf, isConnect, f, i);
      OtherPart(buf, isConnect, f, i);
    } else {
      FieldsAreSections(buf, isConnect);
      if c.start < c.end {
        FoundAtIs(buf, isConnect);
        OneAuthority(buf, isConnect, c.start, c.end, f, i);
        if c.start <= i < c.end { HostLabelIs(buf, c.start, c.end, f, i); }
      } else {
        NoHostPart(buf, isConnect, f, i);
      }
    }
  }

  /** What is reported exactly of an acceptable URL are these fields. */
  lemma ExactFieldsAre(u: HttpUrl.Parts, buf: seq<byte>, isConnect: bool, f: Field)
    requires Exact(u, buf, isConnect) && IsUrl(buf, isConnect)
    ensures var (lo, hi) := Extent(buf, isConnect, f);
            (f in u.fieldSet <==> lo < hi) && (lo < hi ==> f in u.fieldData && u.fieldData[f] == Span(lo, hi - lo))
  {
    hide IsPart, IsUrl, Extent;
    var (lo, hi) := Extent(buf, isConnect, f);
    forall i | 0 <= i < |buf|
      ensures u.Covers(f, i) <==> lo <= i < hi
    {
      PartIsExtent(buf, isConnect, f, i);
    }
    assert f in u.fieldSet ==> u.Covers(f, u.fieldData[f].off);
    if lo < hi {
      CoversIsSpan(u, buf, f, lo, hi);
      assert u.Covers(f, lo);
    }
  }

  /** In origin form: a slash or an asterisk, then visible bytes of any kind. */
  lemma OriginFormIs(buf: seq<byte>)
    requires OriginForm(buf, false)
    ensures Acceptable(buf, false) <==> forall i | 0 <= i < |buf| :: 33 <= buf[i] <= 126
  {
    hide SectionsOf, IsAuthority;
    AcceptableIsUrl(buf, false);
    assert forall i | 0 <= i < |buf| :: ByteOk(buf, false, i) <==> 33 <= buf[i] <= 126;
  }
}
