/** The request-method states of http_parser_execute: s_start_req and s_req_method. */
module HttpMethod {
  import opened Wrappers

  datatype Method =
    | DELETE | GET | HEAD | POST | PUT
    | CONNECT | OPTIONS | TRACE
    | COPY | LOCK | MKCOL | MOVE | PROPFIND | PROPPATCH | SEARCH | UNLOCK | BIND | REBIND | UNBIND | ACL
    | REPORT | MKACTIVITY | CHECKOUT | MERGE
    | MSEARCH | NOTIFY | SUBSCRIBE | UNSUBSCRIBE
    | PATCH | PURGE
    | MKCALENDAR
    | LINK | UNLINK
    | SOURCE

  /** method_strings. */
  function Name(m: Method): string {
    match m
    case DELETE => "DELETE" case GET => "GET" case HEAD => "HEAD" case POST => "POST" case PUT => "PUT"
    case CONNECT => "CONNECT" case OPTIONS => "OPTIONS" case TRACE => "TRACE"
    case COPY => "COPY" case LOCK => "LOCK" case MKCOL => "MKCOL" case MOVE => "MOVE"
    case PROPFIND => "PROPFIND" case PROPPATCH => "PROPPATCH" case SEARCH => "SEARCH" case UNLOCK => "UNLOCK"
    case BIND => "BIND" case REBIND => "REBIND" case UNBIND => "UNBIND" case ACL => "ACL"
    case REPORT => "REPORT" case MKACTIVITY => "MKACTIVITY" case CHECKOUT => "CHECKOUT" case MERGE => "MERGE"
    case MSEARCH => "M-SEARCH" case NOTIFY => "NOTIFY" case SUBSCRIBE => "SUBSCRIBE"
    case UNSUBSCRIBE => "UNSUBSCRIBE"
    case PATCH => "PATCH" case PURGE => "PURGE"
    case MKCALENDAR => "MKCALENDAR"
    case LINK => "LINK" case UNLINK => "UNLINK"
    case SOURCE => "SOURCE"
  }

  /** The first guess, from the first letter. */
  function First(ch: char): Option<Method> {
    match ch
    case 'A' => Some(ACL)
    case 'B' => Some(BIND)
    case 'C' => Some(CONNECT)
    case 'D' => Some(DELETE)
    case 'G' => Some(GET)
    case 'H' => Some(HEAD)
    case 'L' => Some(LOCK)
    case 'M' => Some(MKCOL)
    case 'N' => Some(NOTIFY)
    case 'O' => Some(OPTIONS)
    case 'P' => Some(POST)
    case 'R' => Some(REPORT)
    case 'S' => Some(SUBSCRIBE)
    case 'T' => Some(TRACE)
    case 'U' => Some(UNLOCK)
    case _ => None
  }

  /** The table that changes the guess when a letter does not fit it. */
  function Switch(m: Method, index: nat, ch: char): Option<Method> {
    match m
    case POST =>
      if index != 1 then None
      else if ch == 'U' then Some(PUT) else if ch == 'A' then Some(PATCH) else if ch == 'R' then Some(PROPFIND)
      else None
    case PUT => if index == 2 && ch == 'R' then Some(PURGE) else None
    case CONNECT =>
      if index == 1 && ch == 'H' then Some(CHECKOUT) else if index == 2 && ch == 'P' then Some(COPY) else None
    case MKCOL =>
      if index == 1 && ch == 'O' then Some(MOVE) else if index == 1 && ch == 'E' then Some(MERGE)
      else if index == 1 && ch == '-' then Some(MSEARCH) else if index == 2 && ch == 'A' then Some(MKACTIVITY)
      else if index == 3 && ch == 'A' then Some(MKCALENDAR) else None
    case SUBSCRIBE =>
      if index != 1 then None else if ch == 'E' then Some(SEARCH) else if ch == 'O' then Some(SOURCE) else None
    case REPORT => if index == 2 && ch == 'B' then Some(REBIND) else None
    case PROPFIND => if index == 4 && ch == 'P' then Some(PROPPATCH) else None
    case LOCK => if index == 1 && ch == 'I' then Some(LINK) else None
    case UNLOCK =>
      if index == 2 && ch == 'S' then Some(UNSUBSCRIBE) else if index == 2 && ch == 'B' then Some(UNBIND)
      else if index == 3 && ch == 'I' then Some(UNLINK) else None
    case _ => None
  }

  /** The guess after reading s[..i], given that s[..i - 1] was read; None is an invalid method. */
  function Guess(s: string, i: nat): Option<Method>
    requires 0 < i <= |s|
  {
    if i == 1 then First(s[0])
    else
      match Guess(s, i - 1)
      case None => None
      case Some(m) =>
        if i - 1 < |Name(m)| && s[i - 1] == Name(m)[i - 1] then Some(m) else Switch(m, i - 1, s[i - 1])
  }

  /** Which guess a name is reached from, and at which letter; None when it is a first guess. */
  function Turn(m: Method): Option<(Method, nat)> {
    match m
    case PUT => Some((POST, 1)) case PATCH => Some((POST, 1)) case PROPFIND => Some((POST, 1))
    case PURGE => Some((PUT, 2)) case PROPPATCH => Some((PROPFIND, 4))
    case CHECKOUT => Some((CONNECT, 1)) case COPY => Some((CONNECT, 2))
    case MOVE => Some((MKCOL, 1)) case MERGE => Some((MKCOL, 1)) case MSEARCH => Some((MKCOL, 1))
    case MKACTIVITY => Some((MKCOL, 2)) case MKCALENDAR => Some((MKCOL, 3))
    case SEARCH => Some((SUBSCRIBE, 1)) case SOURCE => Some((SUBSCRIBE, 1))
    case REBIND => Some((REPORT, 2)) case LINK => Some((LOCK, 1))
    case UNSUBSCRIBE => Some((UNLOCK, 2)) case UNBIND => Some((UNLOCK, 2)) case UNLINK => Some((UNLOCK, 3))
    case _ => None
  }

  function TurnAt(m: Method): nat {
    match Turn(m)
    case None => 0
    case Some((_, i)) => i
  }

  /** The table is right at each turn: the letters before agree, and this one changes the guess to m. */
  predicate TurnOk(m: Method, p: Method, i: nat) {
    && TurnAt(p) < i < |Name(p)| && i < |Name(m)|
    && Name(p)[..i] == Name(m)[..i] && Name(p)[i] != Name(m)[i]
    && Switch(p, i, Name(m)[i]) == Some(m)
  }

  lemma FirstGuesses(m: Method)
    requires Turn(m) == None
    ensures Name(m) != "" && First(Name(m)[0]) == Some(m)
  {
  }

  lemma EarlyTurns(m: Method)
    requires Turn(m).Some? && Turn(m).value.1 == 1
    ensures TurnOk(m, Turn(m).value.0, 1)
  {
  }

  lemma LateTurns(m: Method)
    requires Turn(m).Some? && Turn(m).value.1 > 2
    ensures TurnOk(m, Turn(m).value.0, Turn(m).value.1)
  {
    match m
    case PROPPATCH => assert "PROPFIND"[..4] == "PROP" == "PROPPATCH"[..4];
    case MKCALENDAR => assert "MKCOL"[..3] == "MKC" == "MKCALENDAR"[..3];
    case UNLINK => assert "UNLOCK"[..3] == "UNL" == "UNLINK"[..3];
  }

  lemma SecondTurns(m: Method)
    requires Turn(m).Some? && Turn(m).value.1 == 2
    ensures TurnOk(m, Turn(m).value.0, 2)
  {
    match m
    case PURGE => assert "PUT"[..2] == "PU" == "PURGE"[..2];
    case COPY => assert "CONNECT"[..2] == "CO" == "COPY"[..2];
    case MKACTIVITY => assert "MKCOL"[..2] == "MK" == "MKACTIVITY"[..2];
    case REBIND => assert "REPORT"[..2] == "RE" == "REBIND"[..2];
    case UNSUBSCRIBE => assert "UNLOCK"[..2] == "UN" == "UNSUBSCRIBE"[..2];
    case UNBIND => assert "UNLOCK"[..2] == "UN" == "UNBIND"[..2];
  }

  /** Past its turn, every beginning of a name is guessed right. */
  lemma {:induction false} Settled(m: Method, k: nat)
    requires TurnAt(m) < k <= |Name(m)|
    ensures Guess(Name(m), k) == Some(m)
    decreases TurnAt(m), k
  {
    hide Name, Switch, First;
    if TurnAt(m) + 1 < k {
      Settled(m, k - 1);
    } else {
      match Turn(m)
      case None => FirstGuesses(m);
      case Some((p, i)) =>
        if i == 1 { EarlyTurns(m); } else if i == 2 { SecondTurns(m); } else { LateTurns(m); }
        Settled(p, i);
        GuessReadsPrefix(Name(m), Name(p), i);
    }
  }

  /** Reading any of the 34 names from its first letter on ends with the right guess. */
  lemma EveryNameIsGuessed(m: Method)
    ensures Guess(Name(m), |Name(m)|) == Some(m)
  {
    hide Guess;
    Settled(m, |Name(m)|);
  }

  /** What a change of guess must satisfy: the letters read so far stay, and the letter at hand follows. */
  predicate Follows(m: Method, index: nat, ch: char, n: Method) {
    index < |Name(n)| && index <= |Name(m)| && Name(n)[..index] == Name(m)[..index] && Name(n)[index] == ch
  }

  /** The switch table keeps the letters read so far. */
  lemma SwitchKeepsPrefix(m: Method, index: nat, ch: char)
    requires Switch(m, index, ch).Some?
    ensures Follows(m, index, ch, Switch(m, index, ch).value)
  {
    hide Name;
    var n := Switch(m, index, ch).value;
    SwitchIsTurn(m, index, ch);
    if index == 1 { EarlyTurns(n); } else if index == 2 { SecondTurns(n); } else { LateTurns(n); }
    SwitchLetter(m, index, ch, Name(n)[index]);
  }

  lemma SwitchIsTurn(m: Method, index: nat, ch: char)
    requires Switch(m, index, ch).Some?
    ensures Turn(Switch(m, index, ch).value) == Some((m, index))
  {
  }

  /** No two letters change the guess in the same way. */
  lemma SwitchLetter(m: Method, index: nat, a: char, b: char)
    requires Switch(m, index, a).Some? && Switch(m, index, a) == Switch(m, index, b)
    ensures a == b
  {
  }

  /** The letters read so far are always the beginning of the guessed name. */
  lemma {:induction false} GuessIsPrefix(s: string, i: nat)
    requires 0 < i <= |s| && Guess(s, i).Some?
    ensures var n := Name(Guess(s, i).value); i <= |n| && s[..i] == n[..i]
  {
    hide Name, Switch;
    if i == 1 {
      FirstLetter(s[0]);
    } else {
      GuessIsPrefix(s, i - 1);
      var m := Guess(s, i - 1).value;
      if !(i - 1 < |Name(m)| && s[i - 1] == Name(m)[i - 1]) {
        SwitchKeepsPrefix(m, i - 1, s[i - 1]);
      }
    }
  }

  lemma FirstLetter(ch: char)
    requires First(ch).Some?
    ensures Name(First(ch).value) != "" && Name(First(ch).value)[0] == ch
  {
  }

  /** A guess depends on the letters read only. */
  lemma {:induction false} GuessReadsPrefix(s: string, t: string, i: nat)
    requires 0 < i <= |s| && i <= |t| && s[..i] == t[..i]
    ensures Guess(s, i) == Guess(t, i)
  {
    hide Name, Switch, First;
    assert s[i - 1] == s[..i][i - 1] == t[i - 1];
    if i > 1 {
      assert s[..i - 1] == s[..i][..i - 1] == t[..i - 1];
      GuessReadsPrefix(s, t, i - 1);
    }
  }

  lemma {:induction false} GuessedAllAlong(s: string, i: nat, j: nat)
    requires 0 < i <= j <= |s| && Guess(s, j).Some?
    ensures Guess(s, i).Some?
    decreases j - i
  {
    if i < j {
      GuessedAllAlong(s, i + 1, j);
    }
  }

  // ----- What has been read, in words -----

  predicate IsLineBreak(ch: char) { ch == '\r' || ch == '\n' }

  /** How many line breaks the stream starts with; the parser skips them. */
  function Lead(s: string): (k: nat)
    ensures k <= |s|
    ensures forall i :: 0 <= i < k ==> IsLineBreak(s[i])
    ensures k < |s| ==> !IsLineBreak(s[k])
  {
    if s == "" || !IsLineBreak(s[0]) then 0
    else
      var k := 1 + Lead(s[1..]);
      assert k < |s| ==> s[k] == s[1..][k - 1];
      k
  }

  function Word(s: string): string { s[Lead(s)..] }

  /** w could still become, or is, a method name and a space. */
  predicate Possible(w: string) { exists m :: w <= Name(m) + " " }

  lemma {:induction false} LeadPush(s: string, ch: char)
    ensures Lead(s + [ch]) == if Lead(s) == |s| && IsLineBreak(ch) then |s| + 1 else Lead(s)
  {
    if s == "" {
      assert s + [ch] == [ch];
      assert [ch][1..] == "";
      assert Lead("") == 0;
    } else {
      assert (s + [ch])[1..] == s[1..] + [ch];
      LeadPush(s[1..], ch);
    }
  }

  /** When the letters read and the next one start some name and its space, the matcher goes on. */
  lemma NameGoesOn(w: string, m: Method, ch: char, n: Method)
    requires w != "" && Guess(w, |w|) == Some(m)
    requires w + [ch] <= Name(n) + " "
    ensures Guess(w + [ch], |w| + 1) != None || (ch == ' ' && w == Name(m))
  {
    hide Name;
    var s := Name(n) + " ";
    var k := |w| + 1;
    EveryNameIsGuessed(n);
    assert (w + [ch])[|w|] == ch;
    assert w == (w + [ch])[..|w|] == s[..|w|];
    if k <= |Name(n)| {
      assert Name(n)[..k] == s[..k];
      GuessReadsPrefix(w + [ch], Name(n), k);
      GuessedAllAlong(Name(n), k, |Name(n)|);
    } else {
      assert s[..|w|] == Name(n);
    }
  }

  lemma NothingFits(w: string, m: Method, ch: char)
    requires w != "" && Guess(w, |w|) == Some(m)
    requires Guess(w + [ch], |w| + 1) == None && !(ch == ' ' && w == Name(m))
    ensures !Possible(w + [ch])
  {
    hide Name, Guess;
    forall n | w + [ch] <= Name(n) + " "
      ensures false
    {
      NameGoesOn(w, m, ch, n);
    }
  }

  lemma PrefixOfOne(ch: char, t: string)
    requires t != ""
    ensures [ch] <= t ==> t[0] == ch
  {
  }

  lemma FirstOfName(n: Method)
    ensures Name(n) != "" && First(Name(n)[0]).Some?
  {
  }

  lemma BadFirstLetter(ch: char)
    requires First(ch) == None
    ensures !Possible([ch])
  {
    hide Name, First;
    forall n
      ensures !([ch] <= Name(n) + " ")
    {
      FirstOfName(n);
      assert (Name(n) + " ")[0] == Name(n)[0];
      PrefixOfOne(ch, Name(n) + " ");
    }
  }

  lemma PushGuess(w: string, ch: char)
    requires w != ""
    ensures Guess(w + [ch], |w|) == Guess(w, |w|)
  {
    assert (w + [ch])[..|w|] == w[..|w|];
    GuessReadsPrefix(w + [ch], w, |w|);
  }

  // ----- The resumable matcher -----

  datatype State = StartReq | ReqMethod | SpacesBeforeUrl | InvalidMethod

  class MethodMatcher {
    var state: State
    var method_: Method
    var index: nat

    /** Every byte taken from the stream so far, including one that was rejected. */
    ghost var taken: string

    /** What each state says about the stream so far. */
    ghost predicate Valid()
      reads this
    {
      match state
      case StartReq => Word(taken) == ""
      case ReqMethod => Word(taken) != "" && index == |Word(taken)| && Guess(Word(taken), index) == Some(method_)
      case SpacesBeforeUrl => Word(taken) == Name(method_) + " "
      case InvalidMethod => !Possible(Word(taken))
    }

    constructor ()
      ensures Valid() && state == StartReq && taken == ""
    {
      state, method_, index, taken := StartReq, DELETE, 0, "";
    }

    /** One byte in s_start_req or s_req_method. */
    method OnByte(ch: char)
      requires Valid() && (state == StartReq || state == ReqMethod)
      modifies this
      ensures Valid() && taken == old(taken) + [ch]
    {
      hide Name, Switch, First, Guess, Possible;
      ghost var w := Word(taken);
      LeadPush(taken, ch);
      assert (state == StartReq && IsLineBreak(ch)) || Word(taken + [ch]) == w + [ch];
      taken := taken + [ch];
      if state == StartReq {
        if !IsLineBreak(ch) {
          assert w + [ch] == [ch];
          GuessOne(ch);
          var first := First(ch);
          match first {
            case None =>
              BadFirstLetter(ch);
              state := InvalidMethod;
            case Some(m) =>
              method_, index, state := m, 1, ReqMethod;
          }
        }
      } else {
        var matcher := Name(method_);
        PushGuess(w, ch);
        GuessMore(w + [ch], method_);
        GuessIsPrefix(w, |w|);
        if ch == ' ' && index == |matcher| {
          assert w == matcher;
          state := SpacesBeforeUrl;
        } else if index < |matcher| && ch == matcher[index] {
        } else {
          var switched := Switch(method_, index, ch);
          match switched {
            case None =>
              NothingFits(w, method_, ch);
              state := InvalidMethod;
            case Some(m) => method_ := m;
          }
        }
        index := index + 1;
      }
    }

    /** The states of the request line up to the space after the method, for one buffer. */
    method Execute(data: string) returns (p: nat)
      requires Valid()
      modifies this
      ensures Valid() && p <= |data| && taken == old(taken) + data[..p]
      ensures p == |data| || state == SpacesBeforeUrl || state == InvalidMethod
    {
      hide Valid, Name, Guess, Word, Possible;
      p := 0;
      while p < |data| && (state == StartReq || state == ReqMethod)
        invariant p <= |data| && Valid() && taken == old(taken) + data[..p]
      {
        OnByte(data[p]);
        assert data[..p + 1] == data[..p] + [data[p]];
        p := p + 1;
      }
    }

    /** The states tell exactly which streams are complete, hopeless, or still open. */
    lemma StatesAreExact()
      requires Valid()
      ensures state == SpacesBeforeUrl <==> exists m :: Word(taken) == Name(m) + " "
      ensures state == InvalidMethod <==> !Possible(Word(taken))
      ensures state == ReqMethod ==> Word(taken) <= Name(method_)
    {
      hide Name, Guess, Word, Possible;
      var w := Word(taken);
      match state {
        case StartReq => OpenWord(w, GET);
        case ReqMethod =>
          GuessIsPrefix(w, index);
          assert w[..index] == w;
          OpenWord(w, method_);
        case SpacesBeforeUrl => CompleteWord(w, method_);
        case InvalidMethod => HopelessWord(w);
      }
    }
  }

  lemma OpenWord(w: string, m: Method)
    requires w <= Name(m)
    ensures Possible(w) && forall n :: w != Name(n) + " "
  {
    hide Name;
    assert w <= Name(m) + " ";
    forall n
      ensures w != Name(n) + " "
    {
      NoSpaceInName(m);
      assert (Name(n) + " ")[|Name(n)|] == ' ';
      assert w != "" ==> w[|w| - 1] == Name(m)[|w| - 1];
    }
  }

  lemma CompleteWord(w: string, m: Method)
    requires w == Name(m) + " "
    ensures Possible(w)
  {
  }

  lemma HopelessWord(w: string)
    requires !Possible(w)
    ensures forall n :: w != Name(n) + " "
  {
    hide Name;
    forall n
      ensures w != Name(n) + " "
    {
      assert !(w <= Name(n) + " ");
    }
  }

  lemma NoSpaceInName(m: Method)
    ensures forall i :: 0 <= i < |Name(m)| ==> Name(m)[i] != ' '
  {
  }

  lemma GuessOne(ch: char)
    ensures Guess([ch], 1) == First(ch)
  {
  }

  lemma GuessMore(s: string, m: Method)
    requires |s| > 1 && Guess(s, |s| - 1) == Some(m)
    ensures var i := |s| - 1;
            Guess(s, i + 1) == if i < |Name(m)| && s[i] == Name(m)[i] then Some(m) else Switch(m, i, s[i])
  {
  }
}
