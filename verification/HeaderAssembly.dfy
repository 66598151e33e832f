/** How the HTTP/1 codec assembles headers from the fragments the parser hands to its
    callbacks, and what that amounts to for every way of cutting the headers up.

    The parser itself is not part of this model: its callbacks are the input.
    `std::stoull` is the parameter `parseLength`, None where it throws.
  */
module HeaderAssembly {
  import opened CommonTypes
  import opened ParseErrors

  datatype CodecConfig = CodecConfig(maxHeaderSize: nat, maxHeaders: nat)

  datatype Callback = OnField(text: string) | OnValue(text: string) | OnHeadersComplete

  datatype Header = Header(name: string, value: string)

  /** The part of the request context that headers fill in; no content length is None. */
  datatype Context = Context(headers: map<string, string>, host: string, contentLength: Option<nat>)

  const EMPTY_CONTEXT := Context(map[], "", None)

  function LowerChar(c: char): char {
    if 'A' <= c <= 'Z' then c - 'A' + 'a' else c
  }

  function ToLower(s: string): string {
    seq(|s|, i requires 0 <= i < |s| => LowerChar(s[i]))
  }

  /** What saving one header does to the context. */
  function Save(parseLength: string -> Option<nat>, ctx: Context, header: Header): Context {
    var name := ToLower(header.name);
    Context(ctx.headers[name := header.value],
            if name == "host" then header.value else ctx.host,
            if name == "content-length" && parseLength(header.value).Some?
            then parseLength(header.value) else ctx.contentLength)
  }

  function SaveAll(parseLength: string -> Option<nat>, saved: seq<Header>): Context {
    if saved == [] then EMPTY_CONTEXT
    else Save(parseLength, SaveAll(parseLength, saved[..|saved| - 1]), saved[|saved| - 1])
  }

  /** The assembler's fields: the header being collected, the byte count, the error, and the headers saved so far. */
  datatype State = State(field: string, value: string, total: nat, error: ParseError, saved: seq<Header>)

  const START := State("", "", 0, Success, [])

  function SaveCurrent(s: State): State {
    s.(field := "", value := "", saved := s.saved + [Header(s.field, s.value)])
  }

  function Charge(config: CodecConfig, s: State, length: nat): State {
    var s' := s.(total := s.total + length);
    if s'.total > config.maxHeaderSize then s'.(error := HeaderTooLarge) else s'
  }

  /** One callback. The number of headers is the number of distinct names saved. */
  function Step(config: CodecConfig, s: State, cb: Callback): State {
    match cb
    case OnField(text) =>
      var s := if s.value != "" then SaveCurrent(s) else s;
      Charge(config, s.(field := s.field + text), |text|)
    case OnValue(text) =>
      Charge(config, s.(value := s.value + text), |text|)
    case OnHeadersComplete =>
      var s := if s.field != "" then SaveCurrent(s) else s;
      if |Names(s.saved)| > config.maxHeaders then s.(error := TooManyHeaders) else s
  }

  /** Callbacks run until one of them reports an error. */
  function Run(config: CodecConfig, s: State, cbs: seq<Callback>): State
    decreases |cbs|
  {
    if cbs == [] || s.error != Success then s else Run(config, Step(config, s, cbs[0]), cbs[1..])
  }

  function Names(headers: seq<Header>): set<string> {
    set h | h in headers :: ToLower(h.name)
  }

  class HeaderAssembler {
    const config: CodecConfig
    const parseLength: string -> Option<nat>
    var currentField: string
    var currentValue: string
    var totalHeaderSize: nat
    var parseError: ParseError
    var ctx: Context
    // the headers saved so far, in order
    ghost var saved: seq<Header>

    ghost predicate Valid()
      reads this`ctx, this`saved
    {
      ctx == SaveAll(parseLength, saved)
    }

    ghost function View(): State
      reads this
    {
      State(currentField, currentValue, totalHeaderSize, parseError, saved)
    }

    /** The state `parse` starts from, whatever was parsed before. */
    constructor (config: CodecConfig, parseLength: string -> Option<nat>)
      ensures Valid() && View() == START && this.config == config && this.parseLength == parseLength
    {
      this.config := config;
      this.parseLength := parseLength;
      currentField, currentValue, totalHeaderSize, parseError := "", "", 0, Success;
      ctx := EMPTY_CONTEXT;
      saved := [];
    }

    method SaveCurrentHeader()
      requires Valid()
      modifies this
      ensures Valid() && View() == SaveCurrent(old(View()))
    {
      SaveAllExtends(parseLength, saved, Header(currentField, currentValue));
      saved := saved + [Header(currentField, currentValue)];
      var fieldLower := ToLower(currentField);
      if fieldLower == "host" {
        ctx := ctx.(host := currentValue);
      }
      if fieldLower == "content-length" {
        var length := parseLength(currentValue);
        if length.Some? {
          ctx := ctx.(contentLength := length);
        }
      }
      ctx := ctx.(headers := ctx.headers[fieldLower := currentValue]);
      currentField := "";
      currentValue := "";
    }

    method OnHeaderField(text: string) returns (ok: bool)
      requires Valid()
      modifies this
      ensures Valid() && View() == Step(config, old(View()), OnField(text))
      ensures ok == (totalHeaderSize <= config.maxHeaderSize)
    {
      if currentValue != "" {
        SaveCurrentHeader();
      }
      assert View() == if old(View()).value != "" then SaveCurrent(old(View())) else old(View());
      currentField := currentField + text;
      totalHeaderSize := totalHeaderSize + |text|;
      if totalHeaderSize > config.maxHeaderSize {
        parseError := HeaderTooLarge;
        return false;
      }
      return true;
    }

    method OnHeaderValue(text: string) returns (ok: bool)
      requires Valid()
      modifies this
      ensures Valid() && View() == Step(config, old(View()), OnValue(text))
      ensures ok == (totalHeaderSize <= config.maxHeaderSize)
    {
      currentValue := currentValue + text;
      totalHeaderSize := totalHeaderSize + |text|;
      if totalHeaderSize > config.maxHeaderSize {
        parseError := HeaderTooLarge;
        return false;
      }
      return true;
    }

    method OnComplete() returns (ok: bool)
      requires Valid()
      modifies this
      ensures Valid() && View() == Step(config, old(View()), OnHeadersComplete)
      ensures ok == (|ctx.headers| <= config.maxHeaders)
    {
      if currentField != "" {
        SaveCurrentHeader();
      }
      KeysAreNames(parseLength, saved);
      assert |ctx.headers| == |ctx.headers.Keys|;
      if |ctx.headers| > config.maxHeaders {
        parseError := TooManyHeaders;
        return false;
      }
      return true;
    }
  }

  lemma SaveAllExtends(parseLength: string -> Option<nat>, saved: seq<Header>, header: Header)
    ensures SaveAll(parseLength, saved + [header]) == Save(parseLength, SaveAll(parseLength, saved), header)
  {
    assert (saved + [header])[..|saved|] == saved;
  }

  lemma {:induction false} KeysAreNames(parseLength: string -> Option<nat>, saved: seq<Header>)
    ensures SaveAll(parseLength, saved).headers.Keys == Names(saved)
  {
    if saved != [] {
      var rest := saved[..|saved| - 1];
      KeysAreNames(parseLength, rest);
      assert saved == rest + [saved[|saved| - 1]];
    }
  }

  // ----- what saving means: the last header of a name wins -------------------------------------

  /** Header `i` is the last one of that name, letter case aside. */
  ghost predicate LastOfName(headers: seq<Header>, name: string, i: nat) {
    && i < |headers| && ToLower(headers[i].name) == name
    && forall j | i < j < |headers| :: ToLower(headers[j].name) != name
  }

  /** Header `i` is the last Content-Length whose value can be read as a number. */
  ghost predicate LastLength(parseLength: string -> Option<nat>, headers: seq<Header>, i: nat) {
    && i < |headers| && ToLower(headers[i].name) == "content-length" && parseLength(headers[i].value).Some?
    && forall j | i < j < |headers| ::
         ToLower(headers[j].name) != "content-length" || parseLength(headers[j].value).None?
  }

  lemma {:induction false} LastHeaderWins(parseLength: string -> Option<nat>, saved: seq<Header>, name: string)
    ensures name in SaveAll(parseLength, saved).headers <==> name in Names(saved)
    ensures forall i: nat | LastOfName(saved, name, i) ::
              name in SaveAll(parseLength, saved).headers && SaveAll(parseLength, saved).headers[name] == saved[i].value
  {
    KeysAreNames(parseLength, saved);
    if saved != [] {
      var n := |saved| - 1;
      LastHeaderWins(parseLength, saved[..n], name);
      forall i: nat | LastOfName(saved, name, i) && i < n
        ensures LastOfName(saved[..n], name, i)
      {
      }
    }
  }

  lemma {:induction false} LastHostWins(parseLength: string -> Option<nat>, saved: seq<Header>, i: nat)
    requires LastOfName(saved, "host", i)
    ensures SaveAll(parseLength, saved).host == saved[i].value
    decreases |saved|
  {
    if i < |saved| - 1 {
      assert LastOfName(saved[..|saved| - 1], "host", i);
      LastHostWins(parseLength, saved[..|saved| - 1], i);
    }
  }

  lemma {:induction false} LastLengthWins(parseLength: string -> Option<nat>, saved: seq<Header>, i: nat)
    requires LastLength(parseLength, saved, i)
    ensures SaveAll(parseLength, saved).contentLength == parseLength(saved[i].value)
    decreases |saved|
  {
    if i < |saved| - 1 {
      assert LastLength(parseLength, saved[..|saved| - 1], i);
      LastLengthWins(parseLength, saved[..|saved| - 1], i);
    }
  }

  /** Names that differ only in the case of ASCII letters are one key. */
  lemma LowerIgnoresCase(a: string, b: string)
    ensures ToLower(ToLower(a)) == ToLower(a)
    ensures ToLower(a) == ToLower(b) <==>
            |a| == |b| && forall i | 0 <= i < |a| :: LowerChar(a[i]) == LowerChar(b[i])
  {
    if ToLower(a) == ToLower(b) {
      assert |ToLower(a)| == |ToLower(b)|;
      forall i | 0 <= i < |a|
        ensures LowerChar(a[i]) == LowerChar(b[i])
      {
        assert ToLower(a)[i] == ToLower(b)[i];
      }
    }
  }

  // ----- the case of letters ----------------------------------------------------------------------

  predicate IsUpper(c: char) {
    'A' <= c <= 'Z'
  }

  /** The same character, or the same ASCII letter in the other case. */
  predicate SameLetter(a: char, b: char) {
    || a == b
    || (IsUpper(a) && b as int == a as int + 32)
    || (IsUpper(b) && a as int == b as int + 32)
  }

  predicate SameName(a: string, b: string) {
    |a| == |b| && forall i | 0 <= i < |a| :: SameLetter(a[i], b[i])
  }

  /** Two names are one key exactly when they agree letter by letter, in whatever case. */
  lemma SameNamesAreOneKey(a: string, b: string)
    ensures ToLower(a) == ToLower(b) <==> SameName(a, b)
  {
    if ToLower(a) == ToLower(b) {
      assert |ToLower(a)| == |ToLower(b)|;
      forall i | 0 <= i < |a|
        ensures SameLetter(a[i], b[i])
      {
        assert ToLower(a)[i] == ToLower(b)[i];
      }
    }
  }

  /** A name is its own key exactly when it has no upper-case letter; keys have none. */
  lemma LowerNamesAreKeys(name: string)
    ensures ToLower(name) == name <==> forall c | c in name :: !IsUpper(c)
    ensures forall c | c in ToLower(name) :: !IsUpper(c)
  {
    if ToLower(name) == name {
      forall c | c in name
        ensures !IsUpper(c)
      {
        var i :| 0 <= i < |name| && name[i] == c;
        assert ToLower(name)[i] == c;
      }
    }
    if forall c | c in name :: !IsUpper(c) {
      forall i | 0 <= i < |name|
        ensures ToLower(name)[i] == name[i]
      {
        assert name[i] in name && !IsUpper(name[i]);
      }
    }
  }

  lemma KeysAreLower(parseLength: string -> Option<nat>, saved: seq<Header>, name: string)
    requires name in SaveAll(parseLength, saved).headers
    ensures forall c | c in name :: !IsUpper(c)
  {
    KeysAreNames(parseLength, saved);
    var h :| h in saved && ToLower(h.name) == name;
    LowerNamesAreKeys(h.name);
  }

  /** Header `i` is the last one of that name, in whatever case the names are written. */
  ghost predicate LastInAnyCase(headers: seq<Header>, name: string, i: nat) {
    i < |headers| && SameName(headers[i].name, name) && forall j | i < j < |headers| :: !SameName(headers[j].name, name)
  }

  lemma LastInAnyCaseIsLast(headers: seq<Header>, name: string, i: nat)
    requires forall c | c in name :: !IsUpper(c)
    ensures LastInAnyCase(headers, name, i) <==> LastOfName(headers, name, i)
  {
    LowerNamesAreKeys(name);
    forall j | 0 <= j < |headers|
      ensures SameName(headers[j].name, name) <==> ToLower(headers[j].name) == name
    {
      SameNamesAreOneKey(headers[j].name, name);
    }
  }

  /** The last header whose name reads so, in any mixture of cases, has its value under the
      lower-case name; if it reads `host` its value is the host. */
  lemma ValueInAnyCase(parseLength: string -> Option<nat>, saved: seq<Header>, name: string, i: nat)
    requires LastInAnyCase(saved, name, i) && forall c | c in name :: !IsUpper(c)
    ensures name in SaveAll(parseLength, saved).headers
    ensures SaveAll(parseLength, saved).headers[name] == saved[i].value
    ensures name == "host" ==> SaveAll(parseLength, saved).host == saved[i].value
  {
    LastInAnyCaseIsLast(saved, name, i);
    LastHeaderWins(parseLength, saved, name);
    if name == "host" {
      LastHostWins(parseLength, saved, i);
    }
  }

  /** A host is set by nothing else. */
  lemma {:induction false} NoHostHeaderNoHost(parseLength: string -> Option<nat>, saved: seq<Header>)
    requires forall h | h in saved :: !SameName(h.name, "host")
    ensures SaveAll(parseLength, saved).host == "" && "host" !in SaveAll(parseLength, saved).headers
  {
    if saved != [] {
      var n := |saved| - 1;
      assert saved[n] in saved;
      SameNamesAreOneKey(saved[n].name, "host");
      LowerNamesAreKeys("host");
      NoHostHeaderNoHost(parseLength, saved[..n]);
    }
  }

  predicate ReadsAsLength(parseLength: string -> Option<nat>, header: Header) {
    SameName(header.name, "content-length") && parseLength(header.value).Some?
  }

  /** The last readable length of a header that reads `content-length`, in any mixture of cases, is
      the content length. */
  lemma LengthInAnyCase(parseLength: string -> Option<nat>, saved: seq<Header>, i: nat)
    requires i < |saved| && ReadsAsLength(parseLength, saved[i])
    requires forall j | i < j < |saved| :: !ReadsAsLength(parseLength, saved[j])
    ensures SaveAll(parseLength, saved).contentLength == parseLength(saved[i].value)
  {
    LengthNames(saved);
    LastLengthWins(parseLength, saved, i);
  }

  lemma LengthNames(saved: seq<Header>)
    ensures forall j | 0 <= j < |saved| ::
              SameName(saved[j].name, "content-length") <==> ToLower(saved[j].name) == "content-length"
  {
    LowerNamesAreKeys("content-length");
    forall j | 0 <= j < |saved|
      ensures SameName(saved[j].name, "content-length") <==> ToLower(saved[j].name) == "content-length"
    {
      SameNamesAreOneKey(saved[j].name, "content-length");
    }
  }

  /** Without such a header there is no content length. */
  lemma {:induction false} NoLengthHeaderNoLength(parseLength: string -> Option<nat>, saved: seq<Header>)
    requires forall j | 0 <= j < |saved| :: !ReadsAsLength(parseLength, saved[j])
    ensures SaveAll(parseLength, saved).contentLength == None
  {
    if saved != [] {
      var n := |saved| - 1;
      LengthNames(saved);
      assert !ReadsAsLength(parseLength, saved[n]);
      NoLengthHeaderNoLength(parseLength, saved[..n]);
    }
  }

  // ----- fragmentation --------------------------------------------------------------------------

  /** One header, as the parser may hand it over: its name in pieces, then its value in pieces. */
  datatype Fragmented = Fragmented(names: seq<string>, values: seq<string>)

  ghost predicate WellFormed(pieces: seq<Fragmented>) {
    forall p | p in pieces :: p.names != []
  }

  function Joined(parts: seq<string>): string {
    if parts == [] then "" else parts[0] + Joined(parts[1..])
  }

  function Fields(parts: seq<string>): seq<Callback> {
    seq(|parts|, i requires 0 <= i < |parts| => OnField(parts[i]))
  }

  function Values(parts: seq<string>): seq<Callback> {
    seq(|parts|, i requires 0 <= i < |parts| => OnValue(parts[i]))
  }

  /** The callbacks of a list of headers, up to the end of the header block. */
  function Trace(pieces: seq<Fragmented>): seq<Callback> {
    if pieces == [] then [OnHeadersComplete]
    else Fields(pieces[0].names) + Values(pieces[0].values) + Trace(pieces[1..])
  }

  /** The headers those callbacks stand for. */
  function Whole(pieces: seq<Fragmented>): seq<Header> {
    if pieces == [] then []
    else [Header(Joined(pieces[0].names), Joined(pieces[0].values))] + Whole(pieces[1..])
  }

  function Size(headers: seq<Header>): nat {
    if headers == [] then 0 else |headers[0].name| + |headers[0].value| + Size(headers[1..])
  }

  /** The headers the codec saves, given what it has collected but not yet saved: a header
      whose value is empty is not saved when the next one begins, and its name is glued to the next. */
  function Saves(pendingName: string, pendingValue: string, headers: seq<Header>): seq<Header>
    decreases |headers|
  {
    if headers == [] then
      if pendingName != "" then [Header(pendingName, pendingValue)] else []
    else if pendingValue != "" then
      [Header(pendingName, pendingValue)] + Saves(headers[0].name, headers[0].value, headers[1..])
    else
      Saves(pendingName + headers[0].name, headers[0].value, headers[1..])
  }

  /** What the codec reports for a list of headers, however they were fragmented. */
  function Outcome(config: CodecConfig, headers: seq<Header>): ParseError {
    if Size(headers) > config.maxHeaderSize then HeaderTooLarge
    else if |Names(Saves("", "", headers))| > config.maxHeaders then TooManyHeaders
    else Success
  }

  /** The state once all pieces of one name or value are in, if the bytes still fit. */
  function WithName(s: State, name: string): State {
    var s := if s.value != "" then SaveCurrent(s) else s;
    s.(field := s.field + name, total := s.total + |name|)
  }

  function WithValue(s: State, value: string): State {
    s.(value := s.value + value, total := s.total + |value|)
  }

  lemma NextField(config: CodecConfig, s: State, parts: seq<string>, rest: seq<Callback>)
    requires s.error == Success && parts != []
    ensures var end := Run(config, s, Fields(parts) + rest);
            if s.total + |parts[0]| <= config.maxHeaderSize then
              end == Run(config, WithName(s, parts[0]), Fields(parts[1..]) + rest)
            else
              end.error == HeaderTooLarge && end.saved == WithName(s, "").saved
  {
    var cbs := Fields(parts) + rest;
    assert cbs[0] == OnField(parts[0]) && cbs[1..] == Fields(parts[1..]) + rest;
    StepOnField(config, s, parts[0]);
  }

  lemma StepOnField(config: CodecConfig, s: State, text: string)
    requires s.error == Success
    ensures var s' := Step(config, s, OnField(text));
            if s.total + |text| <= config.maxHeaderSize then s' == WithName(s, text)
            else s'.error == HeaderTooLarge && s'.saved == WithName(s, "").saved
  {
  }

  lemma NextValue(config: CodecConfig, s: State, parts: seq<string>, rest: seq<Callback>)
    requires s.error == Success && parts != []
    ensures Run(config, s, Values(parts) + rest)
            == Run(config, Step(config, s, OnValue(parts[0])), Values(parts[1..]) + rest)
  {
    var cbs := Values(parts) + rest;
    assert cbs[0] == OnValue(parts[0]) && cbs[1..] == Values(parts[1..]) + rest;
  }

  /** Once a name has begun, nothing is left to save, and its parts add up. */
  lemma WithNameInParts(s: State, a: string, b: string)
    ensures WithName(WithName(s, a), b) == WithName(s, a + b)
  {
    assert s.field + a + b == s.field + (a + b);
    assert "" + a + b == a + b;
  }

  lemma {:induction false} RunFields(config: CodecConfig, s: State, parts: seq<string>, rest: seq<Callback>)
    requires s.error == Success && s.total <= config.maxHeaderSize && parts != []
    ensures var end := Run(config, s, Fields(parts) + rest);
            if s.total + |Joined(parts)| <= config.maxHeaderSize then
              end == Run(config, WithName(s, Joined(parts)), rest)
            else end.error == HeaderTooLarge && end.saved == WithName(s, "").saved
    decreases |parts|
  {
    NextField(config, s, parts, rest);
    if |parts| == 1 {
      assert parts[1..] == [] && Joined(parts[1..]) == "";
      assert Joined(parts) == parts[0] + "" == parts[0];
      assert Fields(parts[1..]) + rest == rest;
    } else if s.total + |parts[0]| <= config.maxHeaderSize {
      RunFields(config, WithName(s, parts[0]), parts[1..], rest);
      WithNameInParts(s, parts[0], Joined(parts[1..]));
    }
  }

  lemma {:induction false} RunValues(config: CodecConfig, s: State, parts: seq<string>, rest: seq<Callback>)
    requires s.error == Success && s.total <= config.maxHeaderSize
    ensures var end := Run(config, s, Values(parts) + rest);
            if s.total + |Joined(parts)| <= config.maxHeaderSize then
              end == Run(config, WithValue(s, Joined(parts)), rest)
            else end.error == HeaderTooLarge && end.saved == s.saved
    decreases |parts|
  {
    if parts == [] {
      assert Values(parts) + rest == rest && WithValue(s, "") == s;
    } else {
      var s' := Step(config, s, OnValue(parts[0]));
      NextValue(config, s, parts, rest);
      if s'.error == Success {
        RunValues(config, s', parts[1..], rest);
        assert s'.value + Joined(parts[1..]) == s.value + Joined(parts);
      }
    }
  }

  /** From any state, the rest of a trace ends as the rest of the whole headers says. */
  lemma {:induction false} RunTrace(config: CodecConfig, s: State, pieces: seq<Fragmented>)
    requires s.error == Success && s.total <= config.maxHeaderSize && WellFormed(pieces)
    ensures var end := Run(config, s, Trace(pieces));
            var saved := s.saved + Saves(s.field, s.value, Whole(pieces));
            if s.total + Size(Whole(pieces)) > config.maxHeaderSize then end.error == HeaderTooLarge
            else
              && end.saved == saved
              && end.error == if |Names(saved)| > config.maxHeaders then TooManyHeaders else Success
    decreases |pieces|
  {
    if pieces == [] {
      assert Trace(pieces)[1..] == [];
      assert Run(config, s, Trace(pieces)) == Step(config, s, OnHeadersComplete);
      assert s.saved + [] == s.saved;
    } else {
      var header := Whole(pieces)[0];
      var s2 := WithValue(WithName(s, header.name), header.value);
      NextHeader(config, s, pieces);
      if s2.total <= config.maxHeaderSize {
        RunTrace(config, s2, pieces[1..]);
        SavesOfNextHeader(s, header.name, header.value, Whole(pieces)[1..]);
        assert Whole(pieces) == [header] + Whole(pieces)[1..];
      }
    }
  }

  lemma SavesOfNextHeader(s: State, name: string, value: string, rest: seq<Header>)
    ensures var s2 := WithValue(WithName(s, name), value);
            s2.saved + Saves(s2.field, s2.value, rest)
            == s.saved + Saves(s.field, s.value, [Header(name, value)] + rest)
  {
    var s2 := WithValue(WithName(s, name), value);
    var all := [Header(name, value)] + rest;
    assert all[1..] == rest;
    if s.value != "" {
      assert "" + name == name && "" + value == value;
      assert s2.saved + Saves(name, value, rest) == s.saved + ([Header(s.field, s.value)] + Saves(name, value, rest));
    } else {
      assert s.value + value == value;
    }
  }

  /** What a header block comes to depends on the whole headers alone, not on how they were cut up. */
  lemma AssemblyIgnoresFragmentation(config: CodecConfig, pieces: seq<Fragmented>)
    requires WellFormed(pieces)
    ensures Run(config, START, Trace(pieces)).error == Outcome(config, Whole(pieces))
    ensures Outcome(config, Whole(pieces)) != HeaderTooLarge ==>
              Run(config, START, Trace(pieces)).saved == Saves("", "", Whole(pieces))
  {
    RunTrace(config, START, pieces);
    assert START.saved + Saves("", "", Whole(pieces)) == Saves("", "", Whole(pieces));
  }

  /** A header block is accepted exactly when its bytes and its distinct names are within the limits. */
  lemma AcceptedExactlyWhen(config: CodecConfig, pieces: seq<Fragmented>)
    requires WellFormed(pieces)
    ensures Run(config, START, Trace(pieces)).error == Success
            <==> Size(Whole(pieces)) <= config.maxHeaderSize
                 && |Names(Saves("", "", Whole(pieces)))| <= config.maxHeaders
    ensures Run(config, START, Trace(pieces)).error == HeaderTooLarge <==> Size(Whole(pieces)) > config.maxHeaderSize
  {
    AssemblyIgnoresFragmentation(config, pieces);
  }

  lemma {:induction false} RunsAgree(config: CodecConfig, s: State, one: seq<Fragmented>, two: seq<Fragmented>)
    requires s.error == Success && s.total <= config.maxHeaderSize
    requires WellFormed(one) && WellFormed(two) && Whole(one) == Whole(two)
    ensures Run(config, s, Trace(one)).saved == Run(config, s, Trace(two)).saved
    ensures Run(config, s, Trace(one)).error == Run(config, s, Trace(two)).error
    decreases |one|
  {
    if one != [] {
      var name, value := Whole(one)[0].name, Whole(one)[0].value;
      NextHeader(config, s, one);
      NextHeader(config, s, two);
      var s2 := WithValue(WithName(s, name), value);
      if s2.total <= config.maxHeaderSize {
        assert Whole(one[1..]) == Whole(one)[1..] == Whole(two)[1..] == Whole(two[1..]);
        RunsAgree(config, s2, one[1..], two[1..]);
      }
    }
  }

  /** The callbacks of one header, however it is cut up, come to its whole name and value. */
  lemma NextHeader(config: CodecConfig, s: State, pieces: seq<Fragmented>)
    requires s.error == Success && s.total <= config.maxHeaderSize && WellFormed(pieces) && pieces != []
    ensures var end, header := Run(config, s, Trace(pieces)), Whole(pieces)[0];
            var s2 := WithValue(WithName(s, header.name), header.value);
            if s2.total <= config.maxHeaderSize then end == Run(config, s2, Trace(pieces[1..]))
            else end.error == HeaderTooLarge && end.saved == WithName(s, "").saved
  {
    var piece, rest := pieces[0], Trace(pieces[1..]);
    var s1 := WithName(s, Joined(piece.names));
    assert Trace(pieces) == Fields(piece.names) + (Values(piece.values) + rest);
    RunFields(config, s, piece.names, Values(piece.values) + rest);
    if s1.total <= config.maxHeaderSize {
      RunValues(config, s1, piece.values, rest);
    }
  }

  /** Two ways of cutting up the same headers leave the same map, host and length behind, and the
      same error, whether or not the header block is accepted. */
  lemma FragmentationsLeaveTheSame(one: seq<Fragmented>, two: seq<Fragmented>, a: HeaderAssembler, b: HeaderAssembler)
    requires WellFormed(one) && WellFormed(two) && Whole(one) == Whole(two)
    requires a.Valid() && b.Valid() && a.config == b.config && a.parseLength == b.parseLength
    requires a.View() == Run(a.config, START, Trace(one)) && b.View() == Run(b.config, START, Trace(two))
    ensures a.ctx == b.ctx && a.parseError == b.parseError
  {
    RunsAgree(a.config, START, one, two);
  }

  // ----- when the saved headers are the headers sent ---------------------------------------------

  /** Only the last header may have an empty value, and its name must not be empty. */
  ghost predicate Faithful(headers: seq<Header>) {
    && (forall i | 0 <= i < |headers| - 1 :: headers[i].value != "")
    && (headers != [] ==> headers[|headers| - 1].name != "")
  }

  lemma FaithfulTail(header: Header, rest: seq<Header>)
    requires rest != []
    ensures Faithful([header] + rest) <==> header.value != "" && Faithful(rest)
  {
    var all := [header] + rest;
    assert all[|all| - 1] == rest[|rest| - 1] && all[0] == header;
    if Faithful(all) {
      assert forall i | 0 <= i < |rest| - 1 :: rest[i] == all[i + 1];
    }
  }

  lemma {:induction false} SavesAfter(header: Header, rest: seq<Header>)
    ensures |Saves(header.name, header.value, rest)| <= 1 + |rest|
    ensures Saves(header.name, header.value, rest) == [header] + rest <==> Faithful([header] + rest)
    decreases |rest|
  {
    if rest != [] {
      FaithfulTail(header, rest);
      if header.value != "" {
        var saves := Saves(rest[0].name, rest[0].value, rest[1..]);
        SavesAfter(rest[0], rest[1..]);
        assert rest == [rest[0]] + rest[1..];
        assert ([header] + saves)[1..] == saves && ([header] + rest)[1..] == rest;
      } else {
        SavesAfter(Header(header.name + rest[0].name, rest[0].value), rest[1..]);
      }
    }
  }

  /** The codec saves exactly the headers sent if and only if none but the last has an empty value. */
  lemma SavesWhatWasSent(headers: seq<Header>)
    ensures Saves("", "", headers) == headers <==> Faithful(headers)
  {
    if headers != [] {
      assert headers == [headers[0]] + headers[1..];
      assert "" + headers[0].name == headers[0].name;
      SavesAfter(headers[0], headers[1..]);
    }
  }

  /** An empty value in the middle: the two headers become one, whose name is both names together. */
  lemma EmptyValueGluesNames(parseLength: string -> Option<nat>)
    ensures var sent := [Header("a", ""), Header("b", "x")];
            SaveAll(parseLength, Saves("", "", sent)).headers == map["ab" := "x"]
            != SaveAll(parseLength, sent).headers
  {
    var sent := [Header("a", ""), Header("b", "x")];
    assert "" + "a" == "a" && "a" + "b" == "ab";
    assert Saves("", "", sent) == Saves("a", "", sent[1..]) == Saves("ab", "x", sent[1..][1..]) == [Header("ab", "x")];
    assert ToLower("ab") == "ab" && ToLower("a") == "a" && ToLower("b") == "b";
    assert [Header("ab", "x")][..0] == [];
    assert sent[..1] == [sent[0]] && sent[..1][..0] == [];
    assert "a" in SaveAll(parseLength, sent).headers;
  }
}
