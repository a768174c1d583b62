/** `GeminiService` of services/email_service.py: turning the text the
    language model answers with into a classification and a suggested
    reply, and the fail-safe around the remote call.

    The remote call itself (prompt formatting, `generate_content`,
    `response.text`) is not modelled: its outcome is an argument, either the
    answer text or the message of the exception it raised. `json.loads` is
    the `parse` field of the service: `None` stands for `JSONDecodeError`. */
module Gemini {
  import opened Wrappers
  import opened Text
  import opened Json

  const Important: string := "Importante"
  const Dismissible: string := "Despres\U{ED}vel"

  /** The two labels a classification may carry. */
  predicate IsLabel(s: string) {
    s == Important || s == Dismissible
  }

  /** The keys of the dictionary the model is asked to answer with. */
  const LabelKey: string := "classificacao"
  const ReplyKey: string := "resposta_sugerida"

  /** A service: the character tables and the JSON parser. */
  datatype GeminiService = GeminiService(
    tables: CharTables,
    parse: string -> Option<JsonValue>)

  /** The exceptions `classify_email` catches, and where they arise. */
  datatype Fault =
    | CallFailed(message: string)  // raised by the remote call
    | MissingLabel                 // the ValueError raised when the key is missing
    | MembershipTypeError          // `in` on a number, a boolean or null
    | IndexTypeError               // indexing a string or a list with a string
    | LabelNotString               // `.strip()` on a label that is not a string

  /** The dictionary `classify_email` returns: `error` is the key that is
      present only on the fail-safe path; a reply of `JNull` is `None`. */
  datatype Verdict = Verdict(category: string, reply: JsonValue, error: Option<Fault>)

  // ---------------------------------------------------------------------
  // re.sub(r'```json\s*|\s*```', '', text)

  const OpeningFence: string := "```json"
  const Fence: string := "```"

  /** `s` starts with three backticks. */
  predicate FenceAt(s: string) {
    |s| >= 3 && s[0] == '`' && s[1] == '`' && s[2] == '`'
  }

  /** `s` starts with three backticks and the word `json`. */
  predicate OpeningFenceAt(s: string) {
    FenceAt(s) && |s| >= 7 && s[3] == 'j' && s[4] == 's' && s[5] == 'o' && s[6] == 'n'
  }

  lemma {:induction false} FenceAtIsPrefix(s: string)
    ensures FenceAt(s) <==> StartsWith(s, Fence)
    ensures OpeningFenceAt(s) <==> StartsWith(s, OpeningFence)
  {
    if StartsWith(s, Fence) {
      assert s[0] == s[..3][0] && s[1] == s[..3][1] && s[2] == s[..3][2];
    }
    if FenceAt(s) {
      assert s[..3] == Fence;
    }
    if StartsWith(s, OpeningFence) {
      assert forall i :: 0 <= i < 7 ==> s[i] == s[..7][i];
    }
    if OpeningFenceAt(s) {
      assert s[..7] == OpeningFence;
    }
  }

  /** The first alternative, ```` ```json\s* ````, matched at the start of
      `s`: the length of the match. */
  function OpeningMatch(t: CharTables, s: string): (r: Option<nat>)
    ensures r.Some? ==> OpeningFenceAt(s) && 7 <= r.value <= |s|
    ensures r.None? ==> !OpeningFenceAt(s)
  {
    if OpeningFenceAt(s) then Some(7 + LeadingSpaces(t, s[7..])) else None
  }

  /** The fence tried after `k` whitespace characters, then after `k - 1`,
      down to none: the backtracking of `\s*` in front of ```` ``` ````. */
  function ClosingFrom(s: string, k: nat): (r: Option<nat>)
    requires k <= |s|
    ensures r.Some? ==> r.value <= k && FenceAt(s[r.value..])
    ensures r.Some? ==> forall j {:trigger FenceAt(s[j..])} :: r.value < j <= k ==> !FenceAt(s[j..])
    ensures r.None? ==> forall j {:trigger FenceAt(s[j..])} :: 0 <= j <= k ==> !FenceAt(s[j..])
  {
    if FenceAt(s[k..]) then Some(k)
    else if k == 0 then None
    else ClosingFrom(s, k - 1)
  }

  /** The second alternative, ```` \s*``` ````, matched at the start of `s`:
      the length of the match. */
  function ClosingMatch(t: CharTables, s: string): (r: Option<nat>)
    ensures r.Some? ==> 3 <= r.value <= |s|
  {
    match ClosingFrom(s, LeadingSpaces(t, s))
    case None => None
    case Some(k) => Some(k + 3)
  }

  /** The alternation at the start of `s`: the first alternative wins. */
  function FenceMatch(t: CharTables, s: string): (r: Option<nat>)
    ensures r.Some? ==> 3 <= r.value <= |s|
  {
    if OpeningMatch(t, s).Some? then OpeningMatch(t, s) else ClosingMatch(t, s)
  }

  /** The substitution: scanning left to right, every match is deleted and
      scanning resumes after it; where nothing matches, one character is
      kept. */
  function RemoveFences(t: CharTables, s: string): (r: string)
    ensures |r| <= |s|
    decreases |s|
  {
    if s == [] then []
    else match FenceMatch(t, s)
      case Some(n) => RemoveFences(t, s[n..])
      case None => [s[0]] + RemoveFences(t, s[1..])
  }

  /** The substitution keeps the first character when nothing matches there. */
  lemma {:induction false} RemoveFencesKeepsFirst(t: CharTables, s: string)
    requires s != [] && FenceMatch(t, s) == None
    ensures RemoveFences(t, s) == [s[0]] + RemoveFences(t, s[1..])
  {
  }

  /** The substitution deletes a match at the start. */
  lemma {:induction false} RemoveFencesDeletes(t: CharTables, s: string, n: nat)
    requires s != [] && FenceMatch(t, s) == Some(n)
    ensures RemoveFences(t, s) == RemoveFences(t, s[n..])
  {
  }

  predicate NoBacktick(s: string) {
    forall i :: 0 <= i < |s| ==> s[i] != '`'
  }

  /** No fence starts at any of the first `k + 1` positions when none of those
      characters is a backtick. */
  lemma {:induction false} ClosingFromNone(s: string, k: nat)
    requires k <= |s|
    requires forall j :: 0 <= j <= k && j < |s| ==> s[j] != '`'
    ensures ClosingFrom(s, k) == None
  {
    forall j | 0 <= j <= k ensures !FenceAt(s[j..]) {
      if j < |s| { assert s[j..][0] == s[j]; }
    }
  }

  /** Nothing matches at a character that is not a backtick when the
      whitespace run starting there stops before a character that is not one
      either. */
  lemma {:induction false} NoFenceAt(t: CharTables, s: string)
    requires s != [] && s[0] != '`'
    requires forall j :: 0 <= j <= LeadingSpaces(t, s) && j < |s| ==> s[j] != '`'
    ensures FenceMatch(t, s) == None
  {
    ClosingFromNone(s, LeadingSpaces(t, s));
  }

  /** A text without backticks is left unchanged. */
  lemma {:induction false} RemoveFencesNoBacktick(t: CharTables, s: string)
    requires NoBacktick(s)
    ensures RemoveFences(t, s) == s
    decreases |s|
  {
    if s != [] {
      NoFenceAt(t, s);
      RemoveFencesKeepsFirst(t, s);
      var tail := s[1..];
      assert NoBacktick(tail) by {
        forall i | 0 <= i < |tail| ensures tail[i] != '`' { assert tail[i] == s[i + 1]; }
      }
      RemoveFencesNoBacktick(t, tail);
      HeadTail(s);
    }
  }

  /** Nothing matches at the start of a backtick-free piece that ends in a
      non-whitespace character. */
  lemma {:induction false} NoFenceInPlain(t: CharTables, b: string, rest: string)
    requires NoBacktick(b) && b != [] && !t.isSpace(b[|b| - 1])
    ensures FenceMatch(t, b + rest) == None
  {
    var s := b + rest;
    var w := LeadingSpaces(t, s);
    assert !t.isSpace(s[|b| - 1]);
    forall j | 0 <= j <= w ensures s[j] != '`' {
      assert s[j] == b[j];
    }
    NoFenceAt(t, s);
  }

  /** A backtick-free piece that ends in a non-whitespace character passes
      through unchanged, whatever follows it. */
  lemma {:induction false} RemoveFencesKeeps(t: CharTables, b: string, rest: string)
    requires NoBacktick(b)
    requires b == [] || !t.isSpace(b[|b| - 1])
    ensures RemoveFences(t, b + rest) == b + RemoveFences(t, rest)
    decreases |b|
  {
    if b == [] {
      assert b + rest == rest;
    } else {
      var s := b + rest;
      NoFenceInPlain(t, b, rest);
      RemoveFencesKeepsFirst(t, s);
      var b' := b[1..];
      assert NoBacktick(b') by {
        forall i | 0 <= i < |b'| ensures b'[i] != '`' { assert b'[i] == b[i + 1]; }
      }
      assert b' == [] || b'[|b'| - 1] == b[|b| - 1];
      RemoveFencesKeeps(t, b', rest);
      TailOfConcat(b, rest);
      TailOfConcat(b, RemoveFences(t, rest));
    }
  }

  lemma {:induction false} LeadingSpacesOfRun(t: CharTables, ws: string, x: string)
    requires AllSpace(t, ws)
    requires x != [] && !t.isSpace(x[0])
    ensures LeadingSpaces(t, ws + x) == |ws|
  {
    var s := ws + x;
    assert !t.isSpace(s[|ws|]);
    assert forall i :: 0 <= i < |ws| ==> s[i] == ws[i];
  }

  /** A closing fence after nothing but whitespace is deleted with that
      whitespace. */
  lemma {:induction false} RemoveClosingFence(t: CharTables, ws: string)
    requires !t.isSpace('`')
    requires AllSpace(t, ws)
    ensures RemoveFences(t, ws + Fence) == []
  {
    var s := ws + Fence;
    assert s[|ws|..] == Fence;
    LeadingSpacesOfRun(t, ws, Fence);
    if ws != [] {
      assert s[0] == ws[0];
    }
    assert FenceMatch(t, s) == Some(|ws| + 3);
    RemoveFencesDeletes(t, s, |ws| + 3);
    assert s[|ws| + 3..] == [];
  }

  lemma {:induction false} OpeningFenceThen(x: string)
    ensures OpeningFenceAt(OpeningFence + x)
    ensures (OpeningFence + x)[7..] == x
  {
  }

  lemma {:induction false} DropPrefix(a: string, b: string)
    ensures (a + b)[|a|..] == b
  {
  }

  /** An opening fence and the whitespace after it are deleted together. */
  lemma {:induction false} RemoveOpeningFence(t: CharTables, ws: string, x: string)
    requires AllSpace(t, ws)
    requires x != [] && !t.isSpace(x[0])
    ensures RemoveFences(t, OpeningFence + (ws + x)) == RemoveFences(t, x)
  {
    var s := OpeningFence + (ws + x);
    OpeningFenceThen(ws + x);
    LeadingSpacesOfRun(t, ws, x);
    assert FenceMatch(t, s) == Some(7 + |ws|);
    RemoveFencesDeletes(t, s, 7 + |ws|);
    DropPrefix(ws, x);
    assert s[7 + |ws|..] == s[7..][|ws|..];
  }

  /** An answer wrapped in a ```` ```json ```` fence is unwrapped to its body
      (a body without backticks that starts and ends with a non-whitespace
      character), when the backtick is not whitespace. */
  lemma {:induction false} UnwrapFencedAnswer(t: CharTables, ws1: string, body: string, ws2: string)
    requires !t.isSpace('`')
    requires AllSpace(t, ws1) && AllSpace(t, ws2)
    requires NoBacktick(body) && body != []
    requires !t.isSpace(body[0]) && !t.isSpace(body[|body| - 1])
    ensures CleanedAnswer(t, OpeningFence + (ws1 + (body + (ws2 + Fence)))) == body
  {
    RemoveOpeningFence(t, ws1, body + (ws2 + Fence));
    RemoveFencesKeeps(t, body, ws2 + Fence);
    RemoveClosingFence(t, ws2);
    assert body + [] == body;
    StripOfClean(t, body);
  }

  /** After one whitespace character, the second alternative matches the
      whitespace and the three backticks of an opening fence. */
  lemma {:induction false} SpaceFenceMatch(t: CharTables, c: char, rest: string)
    requires t.isSpace(c) && !t.isSpace('`')
    ensures FenceMatch(t, [c] + (OpeningFence + rest)) == Some(4)
  {
    var s := [c] + (OpeningFence + rest);
    OpeningFenceThen(rest);
    DropPrefix([c], OpeningFence + rest);
    assert s[1..] == OpeningFence + rest;
    assert s[0] == c && s[1] == '`';
    assert !OpeningFenceAt(s);
    assert OpeningMatch(t, s) == None;
    assert LeadingSpaces(t, s) == 1;
    assert FenceAt(s[1..]);
    assert ClosingFrom(s, 1) == Some(1);
    assert ClosingMatch(t, s) == Some(4);
  }

  /** What follows the three backticks of an opening fence. */
  lemma {:induction false} SpaceFenceTail(c: char, rest: string)
    ensures ([c] + (OpeningFence + rest))[4..] == "json" + rest
  {
    var s := [c] + (OpeningFence + rest);
    DropPrefix([c], OpeningFence + rest);
    assert s[4..] == (OpeningFence + rest)[3..];
    assert OpeningFence + rest == Fence + ("json" + rest);
    DropPrefix(Fence, "json" + rest);
  }

  /** The word of the opening fence has no backtick and ends in `n`. */
  lemma {:induction false} JsonWordPlain()
    ensures NoBacktick("json") && "json"[3] == 'n'
  {
    var w := "json";
    assert w[0] == 'j' && w[1] == 's' && w[2] == 'o' && w[3] == 'n';
  }

  /** Whitespace in front of the opening fence lets the second alternative
      take its backticks, so the word `json` stays in the text. */
  lemma {:induction false} SpaceBeforeOpeningFence(t: CharTables, c: char, rest: string)
    requires t.isSpace(c) && !t.isSpace('`')
    requires !t.isSpace('n')
    ensures RemoveFences(t, [c] + (OpeningFence + rest)) == "json" + RemoveFences(t, rest)
  {
    var s := [c] + (OpeningFence + rest);
    SpaceFenceMatch(t, c, rest);
    RemoveFencesDeletes(t, s, 4);
    SpaceFenceTail(c, rest);
    JsonWordPlain();
    RemoveFencesKeeps(t, "json", rest);
  }

  /** The text handed to `json.loads`: fences deleted, then stripped. */
  function CleanedAnswer(t: CharTables, text: string): string {
    Strip(t, RemoveFences(t, text))
  }

  // ---------------------------------------------------------------------
  // _parse_response

  /** The normalisation of the stripped label: kept when it is one of the
      two labels, `Importante` otherwise. */
  function NormalisedLabel(s: string): (r: string)
    ensures IsLabel(r)
    ensures IsLabel(s) ==> r == s
    ensures !IsLabel(s) ==> r == Important
  {
    if IsLabel(s) then s else Important
  }

  /** The checks of `_parse_response` on a dictionary: the label must be
      present and a string; it is stripped and normalised, and the reply is
      looked up with `.get`. */
  function InterpretFields(t: CharTables, m: map<string, JsonValue>): (r: Result<Verdict, Fault>)
    ensures r.Ok? ==> IsLabel(r.value.category) && r.value.error == None
    ensures r.Ok? <==> LabelKey in m && m[LabelKey].JString?
  {
    if LabelKey !in m then Err(MissingLabel)
    else if !m[LabelKey].JString? then Err(LabelNotString)
    else
      Ok(Verdict(
        NormalisedLabel(Strip(t, m[LabelKey].s)),
        if ReplyKey in m then m[ReplyKey] else JNull,
        None))
  }

  /** The part of `_parse_response` after `json.loads` succeeded: the label
      check, the normalisation and the reply lookup, with the exceptions the
      checks raise on answers that are not dictionaries. */
  function Interpret(t: CharTables, v: JsonValue): (r: Result<Verdict, Fault>)
    ensures r.Ok? ==> IsLabel(r.value.category) && r.value.error == None
    ensures r.Ok? <==> v.JObject? && LabelKey in v.fields && v.fields[LabelKey].JString?
  {
    match v
    case JObject(m) => InterpretFields(t, m)
    case JString(s) => if Contains(s, LabelKey) then Err(IndexTypeError) else Err(MissingLabel)
    case JArray(xs) => if JString(LabelKey) in xs then Err(IndexTypeError) else Err(MissingLabel)
    case _ => Err(MembershipTypeError)
  }

  /** `_parse_response`: an error is an exception it lets escape. */
  function ParseResponse(g: GeminiService, text: string): (r: Result<Verdict, Fault>)
    ensures r.Ok? ==> IsLabel(r.value.category) && r.value.error == None
  {
    match g.parse(CleanedAnswer(g.tables, text))
    case None => Ok(FallbackParse(g.tables, text))
    case Some(v) => Interpret(g.tables, v)
  }

  /** When the cleaned answer is not valid JSON, the fallback reads the
      answer as it came, fences and all. */
  lemma {:induction false} ParseResponseFallsBack(g: GeminiService, text: string)
    requires g.parse(CleanedAnswer(g.tables, text)) == None
    ensures ParseResponse(g, text) == Ok(FallbackParse(g.tables, text))
  {
  }

  lemma {:induction false} InterpretOfObject(t: CharTables, m: map<string, JsonValue>)
    ensures Interpret(t, JObject(m)) == InterpretFields(t, m)
  {
  }

  /** A dictionary with a string label: the stripped label is kept when it
      is one of the two labels and becomes `Importante` otherwise; the reply
      is the value under the reply key, `None` when absent. */
  lemma {:induction false} InterpretObject(t: CharTables, m: map<string, JsonValue>, given: string)
    requires LabelKey in m && m[LabelKey] == JString(given)
    ensures Interpret(t, JObject(m)) == Ok(Verdict(
      NormalisedLabel(Strip(t, given)),
      if ReplyKey in m then m[ReplyKey] else JNull,
      None))
  {
    InterpretOfObject(t, m);
    assert m[LabelKey].s == given;
  }

  /** `_parse_response` on an answer that parses to a dictionary with a
      string label: the verdict `InterpretObject` describes. */
  lemma {:induction false} ParseResponseObject(g: GeminiService, text: string, m: map<string, JsonValue>, given: string)
    requires g.parse(CleanedAnswer(g.tables, text)) == Some(JObject(m))
    requires LabelKey in m && m[LabelKey] == JString(given)
    ensures ParseResponse(g, text).Ok?
    ensures ParseResponse(g, text).value.category == NormalisedLabel(Strip(g.tables, given))
    ensures ParseResponse(g, text).value.reply == if ReplyKey in m then m[ReplyKey] else JNull
  {
    InterpretObject(g.tables, m, given);
    assert ParseResponse(g, text) == Interpret(g.tables, JObject(m));
  }

  /** Answers that make `_parse_response` raise: no label key, a label that
      is not a string, or a value that is not a dictionary at all (a scalar,
      a string or a list). */
  lemma {:induction false} ParseResponseFaults(g: GeminiService, text: string, v: JsonValue)
    requires g.parse(CleanedAnswer(g.tables, text)) == Some(v)
    ensures v.JObject? && LabelKey !in v.fields ==> ParseResponse(g, text) == Err(MissingLabel)
    ensures v.JObject? && LabelKey in v.fields && !v.fields[LabelKey].JString? ==>
      ParseResponse(g, text) == Err(LabelNotString)
    ensures v.JNull? || v.JBool? || v.JNumber? ==> ParseResponse(g, text) == Err(MembershipTypeError)
    ensures v.JString? && Contains(v.s, LabelKey) ==> ParseResponse(g, text) == Err(IndexTypeError)
    ensures v.JString? && !Contains(v.s, LabelKey) ==> ParseResponse(g, text) == Err(MissingLabel)
    ensures v.JArray? && JString(LabelKey) in v.elems ==> ParseResponse(g, text) == Err(IndexTypeError)
    ensures v.JArray? && JString(LabelKey) !in v.elems ==> ParseResponse(g, text) == Err(MissingLabel)
  {
  }

  /** The usual answer, a dictionary in a ```` ```json ```` fence, is read
      as the dictionary its body parses to. */
  lemma {:induction false} ParseFencedAnswer(g: GeminiService, ws1: string, body: string, ws2: string)
    requires !g.tables.isSpace('`')
    requires AllSpace(g.tables, ws1) && AllSpace(g.tables, ws2)
    requires NoBacktick(body) && body != []
    requires !g.tables.isSpace(body[0]) && !g.tables.isSpace(body[|body| - 1])
    requires g.parse(body).Some?
    ensures ParseResponse(g, OpeningFence + (ws1 + (body + (ws2 + Fence)))) == Interpret(g.tables, g.parse(body).value)
  {
    UnwrapFencedAnswer(g.tables, ws1, body, ws2);
  }

  // ---------------------------------------------------------------------
  // _fallback_parse

  /** The two spellings the fallback looks for in the lowercased answer. */
  const DismissibleMarker: string := "despres\U{ED}vel"
  const DismissibleMarkerPlain: string := "despresivel"

  predicate MentionsDismissible(t: CharTables, text: string) {
    Contains(Lower(t, text), DismissibleMarker) || Contains(Lower(t, text), DismissibleMarkerPlain)
  }

  const ReplyWord: string := "resposta"

  /** `u` starts with `p` ignoring case. */
  predicate CaselessPrefix(t: CharTables, u: string, p: string) {
    |p| <= |u| && forall j :: 0 <= j < |p| ==> t.lower(u[j]) == t.lower(p[j])
  }

  /** `u` starts with the word `resposta` ignoring case, one character at a
      time. */
  predicate ReplyWordAt(t: CharTables, u: string) {
    && |u| >= 8
    && t.lower(u[0]) == t.lower('r') && t.lower(u[1]) == t.lower('e')
    && t.lower(u[2]) == t.lower('s') && t.lower(u[3]) == t.lower('p')
    && t.lower(u[4]) == t.lower('o') && t.lower(u[5]) == t.lower('s')
    && t.lower(u[6]) == t.lower('t') && t.lower(u[7]) == t.lower('a')
  }

  lemma {:induction false} ReplyWordAtIsCaselessPrefix(t: CharTables, u: string)
    ensures ReplyWordAt(t, u) <==> CaselessPrefix(t, u, ReplyWord)
  {
    if CaselessPrefix(t, u, ReplyWord) {
      assert forall j :: 0 <= j < 8 ==> t.lower(u[j]) == t.lower(ReplyWord[j]);
    }
  }

  /** A character of the class `[:\s]`. */
  predicate Separator(t: CharTables, c: char) {
    c == ':' || t.isSpace(c)
  }

  /** `resposta[:\s]+(.+)` matches at the start of `u` with `[:\s]+` taking
      exactly `k` characters: the word, `k >= 1` separators, and at least
      one character left for the group. */
  predicate ReplyMatch(t: CharTables, u: string, k: nat) {
    && ReplyWordAt(t, u)
    && 1 <= k && 8 + k < |u|
    && forall j :: 8 <= j < 8 + k ==> Separator(t, u[j])
  }

  /** Length of the leading run of separators of `s`. */
  function SeparatorRun(t: CharTables, s: string): (n: nat)
    ensures n <= |s|
    ensures forall j :: 0 <= j < n ==> Separator(t, s[j])
    ensures n == |s| || !Separator(t, s[n])
  {
    if s == [] || !Separator(t, s[0]) then 0
    else
      var m := SeparatorRun(t, s[1..]);
      assert forall j :: 1 <= j < m + 1 ==> s[j] == s[1..][j - 1];
      m + 1
  }

  /** How many separators the greedy `[:\s]+` keeps when the pattern matches
      at the start of `u`: all of its run if a character follows, one less
      if the run reaches the end (the group then takes the last one). The
      result is the largest `k` with which the pattern matches. */
  function ReplyRunAt(t: CharTables, u: string): (r: Option<nat>)
    ensures r.Some? ==> ReplyMatch(t, u, r.value)
    ensures r.Some? ==> forall k: nat :: r.value < k ==> !ReplyMatch(t, u, k)
    ensures r.None? ==> forall k: nat :: !ReplyMatch(t, u, k)
  {
    if !ReplyWordAt(t, u) then None
    else
      var m := SeparatorRun(t, u[8..]);
      assert forall j :: 8 <= j < 8 + m ==> u[j] == u[8..][j - 8];
      assert forall k: nat :: ReplyMatch(t, u, k) ==> k <= m by {
        forall k: nat | ReplyMatch(t, u, k) ensures k <= m { }
      }
      if m == 0 then None
      else if 8 + m < |u| then Some(m)
      else if m >= 2 then Some(m - 1)
      else None
  }

  /** `re.search`: the leftmost position at or after `i` where the pattern
      matches. */
  function SearchReply(t: CharTables, s: string, i: nat): (r: Option<nat>)
    requires i <= |s|
    ensures r.Some? ==> i <= r.value <= |s| && ReplyRunAt(t, s[r.value..]).Some?
    ensures r.Some? ==> forall q {:trigger ReplyRunAt(t, s[q..])} :: i <= q < r.value ==> ReplyRunAt(t, s[q..]).None?
    ensures r.None? ==> forall q {:trigger ReplyRunAt(t, s[q..])} :: i <= q <= |s| ==> ReplyRunAt(t, s[q..]).None?
    decreases |s| - i
  {
    if ReplyRunAt(t, s[i..]).Some? then Some(i)
    else if i == |s| then None
    else SearchReply(t, s, i + 1)
  }

  /** The group `(.+)` of the pattern matched at the start of `u` with `k`
      separators, stripped. */
  function ReplyGroup(t: CharTables, u: string, k: nat): string
    requires 8 + k <= |u|
  {
    Strip(t, u[8 + k..])
  }

  /** The group read at position `p` of `text` is the stripped rest of
      `text` after the word and `k` separators. */
  lemma {:induction false} ReplyGroupOfSuffix(t: CharTables, text: string, p: nat, k: nat)
    requires p + 8 + k <= |text|
    ensures ReplyGroup(t, text[p..], k) == Strip(t, text[p + 8 + k..])
  {
    SliceOfSlice(text, p, 8 + k);
  }

  /** `_fallback_parse`. */
  function FallbackParse(t: CharTables, text: string): (r: Verdict)
    ensures r.error == None && IsLabel(r.category)
    ensures r.category == Dismissible <==> MentionsDismissible(t, text)
    ensures r.category == Dismissible ==> r.reply == JNull
    ensures r.reply == JNull || r.reply.JString?
  {
    if MentionsDismissible(t, text) then Verdict(Dismissible, JNull, None)
    else match SearchReply(t, text, 0)
      case None => Verdict(Important, JNull, None)
      case Some(p) =>
        Verdict(Important, JString(ReplyGroup(t, text[p..], ReplyRunAt(t, text[p..]).value)), None)
  }

  /** Without a mention of the dismissible label and without any match of
      `resposta[:\s]+(.+)`, the fallback answers `Importante` with no reply. */
  lemma {:induction false} FallbackWithoutMatch(t: CharTables, text: string)
    requires !MentionsDismissible(t, text)
    requires forall q: nat, k: nat :: q <= |text| ==> !ReplyMatch(t, text[q..], k)
    ensures FallbackParse(t, text) == Verdict(Important, JNull, None)
  {
  }

  lemma {:induction false} FallbackAt(t: CharTables, text: string, p: nat, k: nat)
    requires !MentionsDismissible(t, text)
    requires SearchReply(t, text, 0) == Some(p) && ReplyRunAt(t, text[p..]) == Some(k)
    ensures FallbackParse(t, text) == Verdict(Important, JString(ReplyGroup(t, text[p..], k)), None)
  {
  }

  /** The search stops at the first position where the pattern matches. */
  lemma {:induction false} SearchFindsLeftmost(t: CharTables, text: string, p: nat)
    requires p <= |text| && ReplyRunAt(t, text[p..]).Some?
    requires forall q: nat {:trigger ReplyRunAt(t, text[q..])} :: q < p ==> ReplyRunAt(t, text[q..]).None?
    ensures SearchReply(t, text, 0) == Some(p)
  {
  }

  /** The run the pattern keeps is the longest one it matches with. */
  lemma {:induction false} ReplyRunIsGreedy(t: CharTables, u: string, k: nat)
    requires ReplyMatch(t, u, k)
    requires forall j: nat :: k < j ==> !ReplyMatch(t, u, j)
    ensures ReplyRunAt(t, u) == Some(k)
  {
  }

  /** No match before `p` means no run found before `p`. */
  lemma {:induction false} NoMatchBefore(t: CharTables, text: string, p: nat)
    requires p <= |text|
    requires forall q: nat, j: nat :: q < p ==> !ReplyMatch(t, text[q..], j)
    ensures forall q: nat {:trigger ReplyRunAt(t, text[q..])} :: q < p ==> ReplyRunAt(t, text[q..]).None?
  {
    forall q: nat | q < p ensures ReplyRunAt(t, text[q..]).None? { }
  }

  /** Without a mention of the dismissible label, the reply is the stripped
      group of the leftmost match, in which `[:\s]+` keeps as many
      separators as it can. */
  lemma {:induction false} FallbackWithMatch(t: CharTables, text: string, p: nat, k: nat)
    requires !MentionsDismissible(t, text)
    requires p <= |text| && ReplyMatch(t, text[p..], k)
    requires forall q: nat, j: nat :: q < p ==> !ReplyMatch(t, text[q..], j)
    requires forall j: nat :: k < j ==> !ReplyMatch(t, text[p..], j)
    ensures FallbackParse(t, text) == Verdict(Important, JString(Strip(t, text[p + 8 + k..])), None)
  {
    NoMatchBefore(t, text, p);
    ReplyRunIsGreedy(t, text[p..], k);
    SearchFindsLeftmost(t, text, p);
    FallbackAt(t, text, p, k);
    ReplyGroupOfSuffix(t, text, p, k);
  }

  // ---------------------------------------------------------------------
  // classify_email

  /** `classify_email`, given what the remote call produced: the answer text
      or the message of the exception it raised. Every exception ends in the
      fail-safe verdict, labelled `Importante`, without a reply. */
  function ClassifyEmail(g: GeminiService, call: Result<string, string>): (r: Verdict)
    ensures IsLabel(r.category)
    ensures r.error.Some? ==> r.category == Important && r.reply == JNull
    ensures call.Err? ==> r.error == Some(CallFailed(call.error))
    ensures call.Ok? ==> (r.error == None <==> ParseResponse(g, call.value).Ok?)
    ensures call.Ok? && ParseResponse(g, call.value).Ok? ==> r == ParseResponse(g, call.value).value
    ensures call.Ok? && ParseResponse(g, call.value).Err? ==>
      r == Verdict(Important, JNull, Some(ParseResponse(g, call.value).error))
  {
    match call
    case Err(message) => Verdict(Important, JNull, Some(CallFailed(message)))
    case Ok(text) =>
      match ParseResponse(g, text)
      case Ok(v) => v
      case Err(fault) => Verdict(Important, JNull, Some(fault))
  }
}
