/** The deterministic parts of the LLM helpers (llm_utils.py): cleaning the model's reply,
    validating the filter dictionary it returns, checking the shape of its selection and
    writing the LLM-related session keys. The model call itself and `json.loads` are
    parameters: a `Reply` and a `parse` function. */
module Llm {
  import opened Util

  /** A value as `json.loads` returns it (and as the session state stores it). */
  datatype JsonValue =
    | JNull
    | JBool(b: bool)
    | JInt(i: int)
    | JFloat(x: real)
    | JString(s: string)
    | JList(items: seq<JsonValue>)
    | JObject(fields: map<string, JsonValue>)

  /** What the model call produced: a reply text or an exception. */
  datatype Reply = ApiError | ReplyText(text: string)

  const PossibleArten: seq<string> := ["Kultur", "Natur", "Sightseeing", "Genuss", "Familie", "Sport",
                                      "Entertainment", "Shopping", "Event", "Wellness", "Action", "Freizeit"]
  const PossiblePersonenKat: seq<string> := ["Alleine", "Paar", "Kleingruppe", "Grossgruppe"]

  // ---------------------------------------------------------------------------
  // Reply cleaning
  // ---------------------------------------------------------------------------

  /** The characters of the argument of `lstrip('```json')`: a set, not a prefix. */
  predicate FenceChar(c: char)
  {
    c == '`' || c == 'j' || c == 's' || c == 'o' || c == 'n'
  }

  predicate Backtick(c: char)
  {
    c == '`'
  }

  /** `text.strip().lstrip('```json').rstrip('```').strip()`. */
  function CleanResponse(text: string): (r: string)
    ensures r == [] || (!IsSpace(r[0]) && !IsSpace(r[|r| - 1]))
  {
    Strip(TrimRight(TrimLeft(Strip(text), FenceChar), Backtick))
  }

  /** Trimming from the left passes over a prefix made only of trimmed characters. */
  lemma {:induction false} TrimLeftSkips(a: string, b: string, drop: char -> bool)
    requires forall c :: c in a ==> drop(c)
    ensures TrimLeft(a + b, drop) == TrimLeft(b, drop)
  {
    if a != [] {
      assert (a + b)[1..] == a[1..] + b;
      TrimLeftSkips(a[1..], b, drop);
    } else {
      assert a + b == b;
    }
  }

  /** Trimming from the right passes over a suffix made only of trimmed characters. */
  lemma {:induction false} TrimRightSkips(a: string, b: string, drop: char -> bool)
    requires forall c :: c in b ==> drop(c)
    ensures TrimRight(a + b, drop) == TrimRight(a, drop)
  {
    if b != [] {
      assert (a + b)[..|a + b| - 1] == a + b[..|b| - 1];
      TrimRightSkips(a, b[..|b| - 1], drop);
    } else {
      assert a + b == a;
    }
  }

  lemma TrimLeftStops(b: string, drop: char -> bool)
    requires b != [] && !drop(b[0])
    ensures TrimLeft(b, drop) == b
  {
  }

  lemma TrimRightStops(b: string, drop: char -> bool)
    requires b != [] && !drop(b[|b| - 1])
    ensures TrimRight(b, drop) == b
  {
  }

  /** A reply body that the cleaning leaves alone: it starts with neither whitespace nor a
      fence character and ends with neither whitespace nor a backtick. */
  predicate PlainBody(body: string)
  {
    body != [] && !IsSpace(body[0]) && !FenceChar(body[0])
    && !IsSpace(body[|body| - 1]) && body[|body| - 1] != '`'
  }

  predicate AllSpace(s: string)
  {
    forall c :: c in s ==> IsSpace(c)
  }

  /** `strip()` removes exactly the whitespace around a word with no whitespace at its ends. */
  lemma StripAround(a: string, x: string, b: string)
    requires AllSpace(a) && AllSpace(b)
    requires x != [] && !IsSpace(x[0]) && !IsSpace(x[|x| - 1])
    ensures Strip(a + x + b) == x
  {
    assert a + x + b == a + (x + b);
    TrimLeftSkips(a, x + b, IsSpace);
    TrimLeftStops(x + b, IsSpace);
    TrimRightSkips(x, b, IsSpace);
    TrimRightStops(x, IsSpace);
  }

  /** `lstrip('```json')` removes the fence up to the first character outside the set. */
  lemma DropFence(rest: string)
    requires rest != [] && !FenceChar(rest[0])
    ensures TrimLeft("```json" + rest, FenceChar) == rest
  {
    TrimLeftSkips("```json", rest, FenceChar);
    TrimLeftStops(rest, FenceChar);
  }

  /** `rstrip('```')` removes the closing fence up to the last character that is not a
      backtick. */
  lemma DropClosingFence(inner: string)
    requires inner != [] && !Backtick(inner[|inner| - 1])
    ensures TrimRight(inner + "```", Backtick) == inner
  {
    TrimRightSkips(inner, "```", Backtick);
    TrimRightStops(inner, Backtick);
  }

  /** The outer `strip()` of a fenced reply leaves the fence. */
  lemma StripFencedReply(ws0: string, ws1: string, body: string, ws2: string, ws3: string)
    requires AllSpace(ws0) && AllSpace(ws3)
    ensures Strip(ws0 + "```json" + ws1 + body + ws2 + "```" + ws3) == "```json" + (ws1 + body + ws2) + "```"
  {
    var fenced := "```json" + (ws1 + body + ws2) + "```";
    assert ws0 + "```json" + ws1 + body + ws2 + "```" + ws3 == ws0 + fenced + ws3;
    assert fenced[0] == '`' && fenced[|fenced| - 1] == '`';
    StripAround(ws0, fenced, ws3);
  }

  /** Whitespace, then the body, then whitespace: the characters the fence removal stops at. */
  lemma PaddedBodyEnds(ws1: string, body: string, ws2: string)
    requires AllSpace(ws1) && AllSpace(ws2) && PlainBody(body)
    ensures var inner := ws1 + body + ws2;
      !FenceChar(inner[0]) && !Backtick(inner[|inner| - 1])
  {
    var inner := ws1 + body + ws2;
    if ws1 != [] {
      assert inner[0] == ws1[0] && ws1[0] in ws1;
    } else {
      assert inner[0] == body[0];
    }
    if ws2 != [] {
      assert inner[|inner| - 1] == ws2[|ws2| - 1] && ws2[|ws2| - 1] in ws2;
    } else {
      assert inner[|inner| - 1] == body[|body| - 1];
    }
  }

  /** `lstrip('```json')` on the fenced reply stops at the padded body. */
  lemma DropOpeningFence(ws1: string, body: string, ws2: string)
    requires AllSpace(ws1) && AllSpace(ws2) && PlainBody(body)
    ensures TrimLeft("```json" + (ws1 + body + ws2) + "```", FenceChar) == (ws1 + body + ws2) + "```"
  {
    var inner := ws1 + body + ws2;
    PaddedBodyEnds(ws1, body, ws2);
    assert "```json" + inner + "```" == "```json" + (inner + "```");
    DropFence(inner + "```");
  }

  /** `rstrip('```')` on what is left stops at the padded body. */
  lemma DropClosingFenceOfBody(ws1: string, body: string, ws2: string)
    requires AllSpace(ws1) && AllSpace(ws2) && PlainBody(body)
    ensures TrimRight((ws1 + body + ws2) + "```", Backtick) == ws1 + body + ws2
  {
    PaddedBodyEnds(ws1, body, ws2);
    DropClosingFence(ws1 + body + ws2);
  }

  /** The four stages of the cleaning, one after the other. */
  lemma CleanStages(text: string, fenced: string, rest: string, inner: string, body: string)
    requires Strip(text) == fenced && TrimLeft(fenced, FenceChar) == rest
    requires TrimRight(rest, Backtick) == inner && Strip(inner) == body
    ensures CleanResponse(text) == body
  {
  }

  /** A body wrapped in a "```json" fence, with any whitespace around it, cleans to the
      body itself. */
  lemma FencedReplyIsBody(ws0: string, ws1: string, body: string, ws2: string, ws3: string)
    requires AllSpace(ws0) && AllSpace(ws1) && AllSpace(ws2) && AllSpace(ws3)
    requires PlainBody(body)
    ensures CleanResponse(ws0 + "```json" + ws1 + body + ws2 + "```" + ws3) == body
  {
    StripFencedReply(ws0, ws1, body, ws2, ws3);
    DropOpeningFence(ws1, body, ws2);
    DropClosingFenceOfBody(ws1, body, ws2);
    StripAround(ws1, body, ws2);
    CleanStages(ws0 + "```json" + ws1 + body + ws2 + "```" + ws3, "```json" + (ws1 + body + ws2) + "```",
                (ws1 + body + ws2) + "```", ws1 + body + ws2, body);
  }

  /** A reply that is only the body (the model obeyed "no Markdown") is left as it is. */
  lemma PlainReplyIsBody(body: string)
    requires PlainBody(body)
    ensures CleanResponse(body) == body
  {
    TrimLeftStops(body, IsSpace);
    TrimRightStops(body, IsSpace);
    TrimLeftStops(body, FenceChar);
    TrimRightStops(body, Backtick);
  }

  // ---------------------------------------------------------------------------
  // Filter validation
  // ---------------------------------------------------------------------------

  /** `item in LLM_POSSIBLE_ARTEN`: only a string equal to an allowed value. */
  predicate AllowedArt(v: JsonValue)
  {
    v.JString? && v.s in PossibleArten
  }

  predicate AllowedPersonenKat(v: JsonValue)
  {
    v.JString? && v.s in PossiblePersonenKat
  }

  /** `isinstance(v, (int, float))`; a JSON boolean is a Python `int`. */
  predicate IsNumber(v: JsonValue)
  {
    v.JBool? || v.JInt? || v.JFloat?
  }

  /** The 'Art' step: a list is narrowed to its allowed values and dropped when none is left;
      anything else is dropped. */
  function ValidateArt(d: map<string, JsonValue>): map<string, JsonValue>
  {
    if "Art" !in d then d
    else if !d["Art"].JList? then d - {"Art"}
    else
      var valid := Filter(d["Art"].items, AllowedArt);
      if valid == [] then d - {"Art"} else d["Art" := JList(valid)]
  }

  function ValidatePersonen(d: map<string, JsonValue>): map<string, JsonValue>
  {
    if "Personen_Anzahl_Kategorie" in d && !AllowedPersonenKat(d["Personen_Anzahl_Kategorie"])
    then d - {"Personen_Anzahl_Kategorie"} else d
  }

  function ValidatePreis(d: map<string, JsonValue>): map<string, JsonValue>
  {
    if "Preis_Max" in d && !IsNumber(d["Preis_Max"]) then d - {"Preis_Max"} else d
  }

  /** The three checked keys. */
  predicate CheckedKey(k: string)
  {
    k == "Art" || k == "Personen_Anzahl_Kategorie" || k == "Preis_Max"
  }

  /** What the validation makes of a parsed reply; None when it raises. A list or a string
      that contains a checked key (as an element or a substring) is indexed by that key and
      raises; a number, a boolean or null raises at the first `in`. Any other list or string
      is returned as it is. */
  function ValidatedFilters(v: JsonValue): Option<JsonValue>
  {
    match v
    case JObject(d) => Some(JObject(ValidatePreis(ValidatePersonen(ValidateArt(d)))))
    case JList(items) =>
      if JString("Art") in items || JString("Personen_Anzahl_Kategorie") in items || JString("Preis_Max") in items
      then None else Some(v)
    case JString(s) =>
      if Contains(s, "Art") || Contains(s, "Personen_Anzahl_Kategorie") || Contains(s, "Preis_Max")
      then None else Some(v)
    case _ => None
  }

  /** The validation of the parsed reply, deleting and reassigning keys of the dictionary
      in place. */
  method ValidateFilters(v: JsonValue) returns (r: Option<JsonValue>)
    ensures r == ValidatedFilters(v)
  {
    if !v.JObject? {
      return ValidatedFilters(v);
    }
    var d := v.fields;
    if "Art" in d {
      if d["Art"].JList? {
        var valid := Filter(d["Art"].items, AllowedArt);
        if valid == [] {
          d := d - {"Art"};
        } else {
          d := d["Art" := JList(valid)];
        }
      } else {
        d := d - {"Art"};
      }
    }
    if "Personen_Anzahl_Kategorie" in d {
      if !AllowedPersonenKat(d["Personen_Anzahl_Kategorie"]) {
        d := d - {"Personen_Anzahl_Kategorie"};
      }
    }
    if "Preis_Max" in d {
      if !IsNumber(d["Preis_Max"]) {
        d := d - {"Preis_Max"};
      }
    }
    r := Some(JObject(d));
  }

  /** A validated dictionary keeps only allowed values under the checked keys: 'Art' is a
      non-empty list of allowed values taken in order from the reply's list and present
      exactly when that list had one; 'Personen_Anzahl_Kategorie' is allowed and present
      exactly when it was allowed; 'Preis_Max' is a number and present exactly when it was
      one; every other key passes through untouched. */
  lemma ValidatedDictMeaning(d: map<string, JsonValue>)
    ensures var r := ValidatePreis(ValidatePersonen(ValidateArt(d)));
      && r.Keys <= d.Keys
      && (forall k :: k in d && !CheckedKey(k) ==> k in r && r[k] == d[k])
      && ("Art" in r <==> "Art" in d && d["Art"].JList? && exists x :: x in d["Art"].items && AllowedArt(x))
      && ("Art" in r ==> r["Art"] == JList(Filter(d["Art"].items, AllowedArt)))
      && ("Personen_Anzahl_Kategorie" in r <==> "Personen_Anzahl_Kategorie" in d && AllowedPersonenKat(d["Personen_Anzahl_Kategorie"]))
      && ("Personen_Anzahl_Kategorie" in r ==> r["Personen_Anzahl_Kategorie"] == d["Personen_Anzahl_Kategorie"])
      && ("Preis_Max" in r <==> "Preis_Max" in d && IsNumber(d["Preis_Max"]))
      && ("Preis_Max" in r ==> r["Preis_Max"] == d["Preis_Max"])
  {
    if "Art" in d && d["Art"].JList? {
      var valid := Filter(d["Art"].items, AllowedArt);
      if valid == [] {
        assert forall x :: x in d["Art"].items ==> !AllowedArt(x);
      } else {
        assert valid[0] in d["Art"].items;
      }
    }
  }

  /** Validating an already validated dictionary changes nothing. */
  lemma ValidationIdempotent(d: map<string, JsonValue>)
    ensures var r := ValidatePreis(ValidatePersonen(ValidateArt(d)));
      ValidatePreis(ValidatePersonen(ValidateArt(r))) == r
  {
    var r := ValidatePreis(ValidatePersonen(ValidateArt(d)));
    ValidatedDictMeaning(d);
    if "Art" in r {
      var items := Filter(d["Art"].items, AllowedArt);
      FilterIdempotent(d["Art"].items, AllowedArt);
      assert Filter(items, AllowedArt) == items;
      assert ValidateArt(r) == r;
    } else {
      assert ValidateArt(r) == r;
    }
  }

  /** Selecting twice with the same predicate selects once. */
  lemma {:induction false} FilterIdempotent<T(!new)>(s: seq<T>, p: T -> bool)
    ensures Filter(Filter(s, p), p) == Filter(s, p)
  {
    if s != [] {
      FilterIdempotent(s[1..], p);
      if p(s[0]) {
        var f := Filter(s, p);
        assert f == [s[0]] + Filter(s[1..], p);
        assert f[0] == s[0] && f[1..] == Filter(s[1..], p);
        assert Filter(f, p) == [f[0]] + Filter(f[1..], p);
      } else {
        assert Filter(s, p) == Filter(s[1..], p);
      }
    }
  }

  // ---------------------------------------------------------------------------
  // get_filters_from_gemini
  // ---------------------------------------------------------------------------

  /** Why no filters were returned (each comes with its own message). */
  datatype FilterError = NotConfigured | EmptyQuery | NotJson | Failure

  /** `(filter_dict, None)` or `(None, error_message)`. */
  datatype FilterOutcome = Filters(value: JsonValue) | FilterFailed(error: FilterError)

  /** `get_filters_from_gemini` after the model call: `reply` is what the call produced and
      `parse` is `json.loads` (None for a `JSONDecodeError`). */
  function GetFiltersFromGemini(query: string, configured: bool, reply: Reply, parse: string -> Option<JsonValue>): FilterOutcome
  {
    if !configured then FilterFailed(NotConfigured)
    else if query == [] then FilterFailed(EmptyQuery)
    else if reply.ApiError? then FilterFailed(Failure)
    else
      var parsed := parse(CleanResponse(reply.text));
      if parsed.None? then FilterFailed(NotJson)
      else
        var validated := ValidatedFilters(parsed.value);
        if validated.None? then FilterFailed(Failure) else Filters(validated.value)
  }

  /** Filters are returned exactly for a configured call with a query and a reply that
      parses and survives the validation, and they are the validated reply; every failure
      names its cause. */
  lemma FiltersOutcome(query: string, configured: bool, reply: Reply, parse: string -> Option<JsonValue>)
    ensures var r := GetFiltersFromGemini(query, configured, reply, parse);
      && (r.Filters? <==> configured && query != [] && reply.ReplyText?
                          && parse(CleanResponse(reply.text)).Some?
                          && ValidatedFilters(parse(CleanResponse(reply.text)).value).Some?)
      && (r.Filters? ==> Some(r.value) == ValidatedFilters(parse(CleanResponse(reply.text)).value))
      && (!configured ==> r == FilterFailed(NotConfigured))
      && (configured && query == [] ==> r == FilterFailed(EmptyQuery))
      && (configured && query != [] && reply.ApiError? ==> r == FilterFailed(Failure))
      && (configured && query != [] && reply.ReplyText? && parse(CleanResponse(reply.text)).None? ==>
            r == FilterFailed(NotJson))
  {
  }

  // ---------------------------------------------------------------------------
  // get_selection_and_justification
  // ---------------------------------------------------------------------------

  /** Which parts of the selection had the wrong type; `idsNotInts` is only reported for a
      list. */
  datatype ShapeProblem = ShapeProblem(idsNotList: bool, idsNotInts: bool, justificationNotText: bool)

  datatype SelectionError = SelectionNotConfigured | BadShape(problem: ShapeProblem) | SelectionNotJson | SelectionFailure

  /** `(suggestion_ids, justification, error_message)`. */
  datatype Selection = Selection(ids: Option<seq<int>>, justification: Option<string>, error: Option<SelectionError>)

  const NoCandidatesText: string := "Es wurden keine Aktivitäten gefunden, die den Filterkriterien entsprechen, um Vorschläge zu machen."

  /** `isinstance(i, int)`; `True` and `False` are the integers 1 and 0. */
  predicate IsInt(v: JsonValue)
  {
    v.JInt? || v.JBool?
  }

  function IntOf(v: JsonValue): int
    requires IsInt(v)
  {
    if v.JInt? then v.i else if v.b then 1 else 0
  }

  function Ints(items: seq<JsonValue>): (r: seq<int>)
    requires forall x :: x in items ==> IsInt(x)
    ensures |r| == |items| && forall k :: 0 <= k < |items| ==> r[k] == IntOf(items[k])
  {
    if items == [] then [] else [IntOf(items[0])] + Ints(items[1..])
  }

  /** `d.get(key)`; a missing key reads as `None`. */
  function GetKey(d: map<string, JsonValue>, key: string): JsonValue
  {
    if key in d then d[key] else JNull
  }

  /** The shape check and the slice on a parsed selection reply: a success or an error, never
      both. */
  function CheckSelection(v: JsonValue, num: int): (r: Selection)
    ensures r.error.None? <==> r.ids.Some?
    ensures r.ids.Some? <==> r.justification.Some?
  {
    if !v.JObject? then Selection(None, None, Some(SelectionFailure))
    else
      var ids := GetKey(v.fields, "suggestion_ids");
      var justification := GetKey(v.fields, "justification");
      if ids.JList? && (forall x :: x in ids.items ==> IsInt(x)) && justification.JString? then
        Selection(Some(SliceTo(Ints(ids.items), num)), Some(justification.s), None)
      else
        var problem := ShapeProblem(!ids.JList?, ids.JList? && exists x :: x in ids.items && !IsInt(x), !justification.JString?);
        Selection(None, None, Some(BadShape(problem)))
  }

  /** `get_selection_and_justification` after the model call; every outcome is either a
      success (IDs and justification, no error) or a failure (an error and neither of the
      others). The query only feeds the
      prompt, so it does not appear. */
  function GetSelectionAndJustification(candidates: string, configured: bool, num: int,
                                        reply: Reply, parse: string -> Option<JsonValue>): (r: Selection)
    ensures r.error.None? <==> r.ids.Some?
    ensures r.ids.Some? <==> r.justification.Some?
  {
    if !configured then Selection(None, None, Some(SelectionNotConfigured))
    else if candidates == [] then Selection(Some([]), Some(NoCandidatesText), None)
    else if reply.ApiError? then Selection(None, None, Some(SelectionFailure))
    else
      var parsed := parse(CleanResponse(reply.text));
      if parsed.None? then Selection(None, None, Some(SelectionNotJson))
      else CheckSelection(parsed.value, num)
  }

  /** A reply is well typed when it is an object whose 'suggestion_ids' is a list of
      integers and whose 'justification' is a string. */
  predicate WellTyped(v: JsonValue)
  {
    && v.JObject?
    && GetKey(v.fields, "suggestion_ids").JList?
    && (forall x :: x in GetKey(v.fields, "suggestion_ids").items ==> IsInt(x))
    && GetKey(v.fields, "justification").JString?
  }

  /** The shape check accepts exactly the well-typed replies, returning the first `num` IDs
      in the model's order, and otherwise reports an error and nothing else. */
  lemma CheckSelectionMeaning(v: JsonValue, num: int)
    ensures var r := CheckSelection(v, num);
      && (r.error.None? <==> WellTyped(v))
      && (r.ids.Some? <==> WellTyped(v)) && (r.justification.Some? <==> WellTyped(v))
      && (WellTyped(v) ==>
            var all := Ints(GetKey(v.fields, "suggestion_ids").items);
            && r.ids.value <= all
            && (num >= 0 ==> |r.ids.value| == Min(num, |all|))
            && r.justification.value == GetKey(v.fields, "justification").s)
  {
  }

  /** Without configuration the call fails, without candidates it returns no IDs and a fixed
      message, and after a model call it succeeds exactly when the reply parses and is well
      typed, with the shape check's result. */
  lemma SelectionOutcome(candidates: string, configured: bool, num: int, reply: Reply, parse: string -> Option<JsonValue>)
    ensures var r := GetSelectionAndJustification(candidates, configured, num, reply, parse);
      && (!configured ==> r == Selection(None, None, Some(SelectionNotConfigured)))
      && (configured && candidates == [] ==> r == Selection(Some([]), Some(NoCandidatesText), None))
      && (configured && candidates != [] && reply.ReplyText? ==>
            var parsed := parse(CleanResponse(reply.text));
            && (r.ids.Some? <==> parsed.Some? && WellTyped(parsed.value))
            && (r.ids.Some? ==> r == CheckSelection(parsed.value, num)))
  {
    if configured && candidates != [] && reply.ReplyText? {
      var parsed := parse(CleanResponse(reply.text));
      if parsed.Some? {
        CheckSelectionMeaning(parsed.value, num);
      }
    } else if configured && candidates != [] {
      assert reply.ApiError?;
    }
  }

  /** A well-formed reply yields its first `num` IDs and its justification. */
  lemma WellFormedSelection(ids: seq<int>, justification: string, num: nat)
    ensures var v := JObject(map["suggestion_ids" := JList(Map(ids, (i: int) => JInt(i))), "justification" := JString(justification)]);
      CheckSelection(v, num) == Selection(Some(ids[..Min(num, |ids|)]), Some(justification), None)
  {
    var items := Map(ids, (i: int) => JInt(i));
    var v := JObject(map["suggestion_ids" := JList(items), "justification" := JString(justification)]);
    assert GetKey(v.fields, "suggestion_ids") == JList(items);
    assert GetKey(v.fields, "justification") == JString(justification);
    assert forall x :: x in items ==> IsInt(x);
    assert Ints(items) == ids;
  }

  // ---------------------------------------------------------------------------
  // update_llm_state
  // ---------------------------------------------------------------------------

  /** The argument names of `update_llm_state` and the session keys they write, in order. */
  const StateKeys: seq<(string, string)> := [
    ("filters", "llm_filters"),
    ("suggestion_ids", "llm_suggestion_ids"),
    ("justification", "llm_justification"),
    ("show_results", "show_llm_results"),
    ("query", "nlp_query_submitted")]

  /** Python truthiness of a value. */
  predicate Truthy(v: JsonValue)
  {
    match v
    case JNull => false
    case JBool(b) => b
    case JInt(i) => i != 0
    case JFloat(x) => x != 0.0
    case JString(s) => s != []
    case JList(items) => items != []
    case JObject(fields) => fields != map[]
  }

  /** The store after the first `k` mapped arguments were written. */
  function Written(store: map<string, JsonValue>, args: map<string, JsonValue>, k: nat): map<string, JsonValue>
    requires k <= |StateKeys|
  {
    if k == 0 then store
    else
      var w := Written(store, args, k - 1);
      var (key, stateKey) := StateKeys[k - 1];
      if key in args then w[stateKey := args[key]] else w
  }

  /** The session store after `update_llm_state(**args)`. */
  function Updated(store: map<string, JsonValue>, args: map<string, JsonValue>): map<string, JsonValue>
  {
    var w := Written(store, args, |StateKeys|);
    if Truthy(GetKey(args, "reset_suggestions"))
    then w["llm_suggestion_ids" := JNull]["llm_justification" := JNull]
    else w
  }

  /** After the first `k` pairs, a session key holds the value of the last argument among
      them that maps to it, and is untouched when none was passed. */
  lemma {:induction false} WrittenMeaning(store: map<string, JsonValue>, args: map<string, JsonValue>, k: nat)
    requires k <= |StateKeys|
    ensures forall j :: 0 <= j < k && StateKeys[j].0 in args ==>
              StateKeys[j].1 in Written(store, args, k) && Written(store, args, k)[StateKeys[j].1] == args[StateKeys[j].0]
    ensures forall sk :: (forall j :: 0 <= j < k ==> StateKeys[j].1 != sk || StateKeys[j].0 !in args) ==>
              GetKey(Written(store, args, k), sk) == GetKey(store, sk)
  {
    if k > 0 {
      WrittenMeaning(store, args, k - 1);
      DistinctStateKeys();
    }
  }

  /** Every argument writes its own session key. */
  lemma DistinctStateKeys()
    ensures forall i, j :: 0 <= i < j < |StateKeys| ==> StateKeys[i].1 != StateKeys[j].1
  {
  }

  /** `update_llm_state` writes a passed mapped argument to its session key (except the two
      that a reset clears), clears the suggestion IDs and the justification on a reset, and
      leaves every other session key as it was. */
  lemma UpdatedMeaning(store: map<string, JsonValue>, args: map<string, JsonValue>)
    ensures var r := Updated(store, args);
      var reset := Truthy(GetKey(args, "reset_suggestions"));
      && (forall j ::
            (0 <= j < |StateKeys| && StateKeys[j].0 in args && !(reset && (j == 1 || j == 2))) ==>
            StateKeys[j].1 in r && r[StateKeys[j].1] == args[StateKeys[j].0])
      && (reset ==> GetKey(r, "llm_suggestion_ids") == JNull && GetKey(r, "llm_justification") == JNull)
      && (forall sk :: (forall j :: 0 <= j < |StateKeys| ==> StateKeys[j].1 != sk || StateKeys[j].0 !in args)
                       && !(reset && (sk == "llm_suggestion_ids" || sk == "llm_justification")) ==>
                       GetKey(r, sk) == GetKey(store, sk))
  {
    WrittenMeaning(store, args, |StateKeys|);
    DistinctStateKeys();
  }

  /** The LLM-related part of the session state. */
  class LlmState {
    var store: map<string, JsonValue>

    /** The defaults set when a session starts. */
    constructor()
      ensures store == map["llm_filters" := JNull, "llm_suggestion_ids" := JNull, "llm_justification" := JNull,
                           "show_llm_results" := JBool(false), "nlp_query_submitted" := JNull]
    {
      store := map["llm_filters" := JNull, "llm_suggestion_ids" := JNull, "llm_justification" := JNull,
                   "show_llm_results" := JBool(false), "nlp_query_submitted" := JNull];
    }

    /** `update_llm_state(**args)`. */
    method Update(args: map<string, JsonValue>)
      modifies this
      ensures store == Updated(old(store), args)
    {
      var reset := Truthy(GetKey(args, "reset_suggestions"));
      var i := 0;
      while i < |StateKeys|
        invariant 0 <= i <= |StateKeys|
        invariant store == Written(old(store), args, i)
      {
        var (key, stateKey) := StateKeys[i];
        if key in args {
          store := store[stateKey := args[key]];
        }
        i := i + 1;
      }
      if reset {
        store := store["llm_suggestion_ids" := JNull];
        store := store["llm_justification" := JNull];
      }
    }
  }
}
