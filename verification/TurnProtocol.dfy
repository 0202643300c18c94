/** The turn protocol of the execution adapter: building a turn from an engine's payload, and
    materialising a turn as a payload again. */
module TurnProtocol {
  import opened PyText
  import opened Json

  type Members = seq<(string, Json)>

  /** What the Python runtime makes of the text of a number: `int` of a float and of a string
      (`None` for its exceptions), and whether a float is zero, and whether it is finite. */
  datatype Py = Py(
    floatToInt: string -> Option<int>, stringToInt: string -> Option<int>,
    floatIsZero: string -> bool, floatIsFinite: string -> bool)

  // ---------------------------------------------------------------------------------------
  // Turns

  datatype Kind = ChooseOne | Confirm | FillFields | OpenText | UploadFiles | RiskAck

  datatype Choice = Choice(name: string, value: Json)

  datatype Interaction = Interaction(
    id: int, kind: Kind, prompt: string, choices: seq<Choice>, uiHints: Members,
    policy: string, requiredFields: seq<string>, context: Option<Members>)

  /** The repair level a turn carries along. */
  type Level = string

  datatype Turn =
    | Final(data: Members, level: Level)
    | AskUser(interaction: Interaction, level: Level)
    | Error(reason: string, message: string, level: Level)

  const DEFAULT_REASON := "ADAPTER_TURN_ERROR"

  function KindName(k: Kind): string {
    match k
    case ChooseOne => "choose_one"
    case Confirm => "confirm"
    case FillFields => "fill_fields"
    case OpenText => "open_text"
    case UploadFiles => "upload_files"
    case RiskAck => "risk_ack"
  }

  // ---------------------------------------------------------------------------------------
  // Reading a payload

  predicate Truthy(py: Py, v: Json) {
    match v
    case Null => false
    case Bool(b) => b
    case Int(n) => n != 0
    case Float(token) => !py.floatIsZero(token)
    case Str(s) => s != ""
    case Arr(items) => items != []
    case Obj(members) => members != []
  }

  function ToInt(py: Py, v: Json): Option<int> {
    match v
    case Int(n) => Some(n)
    case Bool(b) => Some(if b then 1 else 0)
    case Float(token) => py.floatToInt(token)
    case Str(s) => py.stringToInt(s)
    case _ => None
  }

  /** `_normalize_interaction_kind`. The text of a value that is no string names no kind. */
  function NormalizeKind(raw: Json): Kind {
    var name := if raw.Str? then Lower(Strip(raw.s)) else "";
    if name == "decision" || name == "choose_one" then ChooseOne
    else if name == "confirmation" || name == "confirm" then Confirm
    else if name == "fill_fields" then FillFields
    else if name == "upload_files" then UploadFiles
    else if name == "risk_ack" then RiskAck
    else OpenText
  }

  function Choices(items: seq<Json>): seq<Choice> {
    if items == [] then []
    else
      (match items[0]
       case Obj(members) =>
         (match Field(members, "label")
          case Str(s) => if Strip(s) != "" then [Choice(Strip(s), Field(members, "value"))] else []
          case _ => [])
       case _ => []) + Choices(items[1..])
  }

  function TrimmedStrings(items: seq<Json>): seq<string> {
    if items == [] then []
    else (if items[0].Str? && Strip(items[0].s) != "" then [Strip(items[0].s)] else []) + TrimmedStrings(items[1..])
  }

  datatype Normalized = Good(interaction: Interaction) | Bad(reason: string)

  function PromptOf(py: Py, payload: Members): Json {
    if Truthy(py, Field(payload, "prompt")) then Field(payload, "prompt") else Field(payload, "question")
  }

  /** `_normalize_interaction_payload`. */
  function NormalizeInteraction(py: Py, payload: Members): Normalized {
    match ToInt(py, Field(payload, "interaction_id"))
    case None => Bad("missing interaction_id")
    case Some(id) =>
      if id <= 0 then Bad("invalid interaction_id")
      else
        match PromptOf(py, payload)
        case Str(prompt) =>
          if Strip(prompt) == "" then Bad("missing prompt")
          else
            Good(Interaction(
              id,
              if Get(payload, "kind").None? then OpenText else NormalizeKind(Field(payload, "kind")),
              Strip(prompt),
              match Field(payload, "options") case Arr(items) => Choices(items) case _ => [],
              match Field(payload, "ui_hints") case Obj(members) => members case _ => [],
              match Field(payload, "default_decision_policy")
                case Str(s) => if Strip(s) != "" then Strip(s) else "engine_judgement"
                case _ => "engine_judgement",
              match Field(payload, "required_fields") case Arr(items) => TrimmedStrings(items) case _ => [],
              match Field(payload, "context") case Obj(members) => Some(members) case _ => None))
        case _ => Bad("missing prompt")
  }

  /** `_extract_interaction_from_payload`. */
  function ExtractInteraction(py: Py, payload: Members): Normalized {
    match Field(payload, "interaction")
    case Obj(members) => NormalizeInteraction(py, members)
    case _ =>
      match Field(payload, "ask_user")
      case Obj(members) => NormalizeInteraction(py, members)
      case _ => Bad("missing interaction payload")
  }

  function AskTurn(py: Py, payload: Members, level: Level): Turn {
    match ExtractInteraction(py, payload)
    case Good(interaction) => AskUser(interaction, level)
    case Bad(reason) => Error(DEFAULT_REASON, "invalid ask_user payload: " + reason, level)
  }

  /** The message of an error payload: its own, else the nested one, else a fixed text. */
  function ErrorMessage(payload: Members): string {
    var own := Field(payload, "message");
    var message :=
      if !(own.Str? && Strip(own.s) != "") then
        match Field(payload, "error")
        case Obj(nested) => if Field(nested, "message").Str? then Field(nested, "message") else own
        case _ => own
      else own;
    if message.Str? && Strip(message.s) != "" then message.s else "engine returned error outcome"
  }

  function OutcomeName(payload: Members): string {
    match Field(payload, "outcome")
    case Str(s) => Lower(Strip(s))
    case _ => ""
  }

  /** The markers of the payload shape that came before `outcome`. */
  predicate LegacyAskUser(payload: Members) {
    || Field(payload, "ask_user").Obj?
    || (Field(payload, "action") == Str("ask_user") && Field(payload, "interaction").Obj?)
    || (Field(payload, "type") == Str("ask_user") && Field(payload, "interaction").Obj?)
  }

  /** `_build_turn_result_from_payload`. */
  function Build(py: Py, payload: Members, level: Level): Turn {
    var outcome := OutcomeName(payload);
    if outcome == "final" then
      match Field(payload, "final_data")
      case Obj(data) => Final(data, level)
      case _ => Error(DEFAULT_REASON, "invalid final_data payload", level)
    else if outcome == "ask_user" then AskTurn(py, payload, level)
    else if outcome == "error" then
      var given := Field(payload, "failure_reason");
      Error(if given.Str? && given.s != "" then given.s else DEFAULT_REASON, ErrorMessage(payload), level)
    else if LegacyAskUser(payload) then AskTurn(py, payload, level)
    else Final(payload, level)
  }

  lemma {:induction false} GetAppended(members: Members, name: string, v: Json, other: string)
    requires other != name
    ensures Get(members + [(name, v)], other) == Get(members, other)
  {
    if members != [] {
      GetAppended(members[1..], name, v, other);
      assert (members + [(name, v)])[1..] == members[1..] + [(name, v)];
    }
  }

  /** A payload of the shape that came before `outcome` reads like the same payload with its
      outcome spelled out. */
  lemma LegacyReadsAsAskUser(py: Py, payload: Members, level: Level)
    requires LegacyAskUser(payload) && OutcomeName(payload) !in {"final", "ask_user", "error"}
    ensures Build(py, payload + [("outcome", Str("ask_user"))], level) == Build(py, payload, level)
  {
    hide Get, NormalizeInteraction, OutcomeName, Field;
    SpelledAskTurn(py, payload, level);
    SpelledOutcome(payload);
  }

  lemma SpelledAskTurn(py: Py, payload: Members, level: Level)
    ensures AskTurn(py, payload + [("outcome", Str("ask_user"))], level) == AskTurn(py, payload, level)
  {
    hide Get, NormalizeInteraction;
    GetAppended(payload, "outcome", Str("ask_user"), "interaction");
    GetAppended(payload, "outcome", Str("ask_user"), "ask_user");
  }

  lemma SpelledOutcome(payload: Members)
    ensures OutcomeName(payload + [("outcome", Str("ask_user"))]) == "ask_user"
  {
    hide Get, Strip;
    var spelled := payload + [("outcome", Str("ask_user"))];
    GetAt(spelled, |payload|);
    StripTrimmed("ask_user");
    assert Lower("ask_user") == "ask_user";
  }

  // ---------------------------------------------------------------------------------------
  // Writing a payload

  /** What dumping makes of a value of any type: NaN and the infinities, at any depth, are
      written as null. */
  function Dumped(py: Py, v: Json): Json {
    match v
    case Float(token) => if py.floatIsFinite(token) then v else Null
    case Arr(items) => Arr(seq(|items|, k requires 0 <= k < |items| => Dumped(py, items[k])))
    case Obj(members) =>
      Obj(seq(|members|, k requires 0 <= k < |members| => (members[k].0, Dumped(py, members[k].1))))
    case _ => v
  }

  function DumpedMembers(py: Py, members: Members): (r: Members)
    ensures |r| == |members| && forall k :: 0 <= k < |r| ==> r[k] == (members[k].0, Dumped(py, members[k].1))
  {
    seq(|members|, k requires 0 <= k < |members| => (members[k].0, Dumped(py, members[k].1)))
  }

  function ChoiceFields(choices: seq<Choice>): seq<Json> {
    if choices == [] then []
    else [Obj([("label", Str(choices[0].name)), ("value", choices[0].value)])] + ChoiceFields(choices[1..])
  }

  function DumpStrings(items: seq<string>): seq<Json> {
    if items == [] then [] else [Str(items[0])] + DumpStrings(items[1..])
  }

  /** The fields of an interaction, its values as they are. */
  function InteractionFields(i: Interaction): Members {
    [("interaction_id", Int(i.id)),
     ("kind", Str(KindName(i.kind))),
     ("prompt", Str(i.prompt)),
     ("options", Arr(ChoiceFields(i.choices))),
     ("ui_hints", Obj(i.uiHints)),
     ("default_decision_policy", Str(i.policy)),
     ("required_fields", Arr(DumpStrings(i.requiredFields))),
     ("context", if i.context.Some? then Obj(i.context.value) else Null)]
  }

  function DumpedValues(py: Py, choices: seq<Choice>): (r: seq<Choice>)
    ensures |r| == |choices|
    ensures forall k :: 0 <= k < |r| ==> r[k] == Choice(choices[k].name, Dumped(py, choices[k].value))
  {
    seq(|choices|, k requires 0 <= k < |choices| => Choice(choices[k].name, Dumped(py, choices[k].value)))
  }

  /** The interaction that its dump stands for. */
  function Nulled(py: Py, i: Interaction): Interaction {
    i.(choices := DumpedValues(py, i.choices),
       uiHints := DumpedMembers(py, i.uiHints),
       context := if i.context.Some? then Some(DumpedMembers(py, i.context.value)) else None)
  }

  /** `AdapterTurnInteraction.model_dump(mode="json")`. */
  function DumpInteraction(py: Py, i: Interaction): Members {
    InteractionFields(Nulled(py, i))
  }

  /** `_materialize_output_payload`. */
  function Materialize(py: Py, turn: Turn): Members {
    match turn
    case Final(data, _) => data
    case AskUser(i, _) =>
      [("outcome", Str("ask_user")), ("action", Str("ask_user")),
       ("ask_user", Obj(DumpInteraction(py, i))), ("interaction", Obj(DumpInteraction(py, i)))]
    case Error(_, message, _) =>
      [("outcome", Str("error")), ("error", Obj([("code", Str("ADAPTER_TURN_ERROR")), ("message", Str(message))]))]
  }

  // ---------------------------------------------------------------------------------------
  // Every interaction ever built is well formed

  predicate WellFormed(i: Interaction) {
    && i.id >= 1 && Solid(i.prompt) && Solid(i.policy)
    && (forall k :: 0 <= k < |i.choices| ==> Solid(i.choices[k].name))
    && (forall k :: 0 <= k < |i.requiredFields| ==> Solid(i.requiredFields[k]))
  }

  lemma {:induction false} ChoicesAreSolid(items: seq<Json>)
    ensures forall k :: 0 <= k < |Choices(items)| ==> Solid(Choices(items)[k].name)
  {
    hide Strip, Trimmed, Solid;
    if items != [] {
      ChoicesAreSolid(items[1..]);
      if items[0].Obj? && Field(items[0].members, "label").Str? && Strip(Field(items[0].members, "label").s) != "" {
        StripIsSolid(Field(items[0].members, "label").s);
      }
    }
  }

  lemma {:induction false} FieldsAreSolid(items: seq<Json>)
    ensures forall k :: 0 <= k < |TrimmedStrings(items)| ==> Solid(TrimmedStrings(items)[k])
  {
    hide Strip, Trimmed, Solid;
    if items != [] {
      FieldsAreSolid(items[1..]);
      if items[0].Str? && Strip(items[0].s) != "" {
        StripIsSolid(items[0].s);
      }
    }
  }

  lemma NormalizedIsWellFormed(py: Py, payload: Members)
    requires NormalizeInteraction(py, payload).Good?
    ensures WellFormed(NormalizeInteraction(py, payload).interaction)
  {
    hide Choices, TrimmedStrings, Strip, Solid;
    StripIsSolid(PromptOf(py, payload).s);
    match Field(payload, "options") {
      case Arr(items) => ChoicesAreSolid(items);
      case _ =>
    }
    match Field(payload, "required_fields") {
      case Arr(items) => FieldsAreSolid(items);
      case _ =>
    }
    match Field(payload, "default_decision_policy") {
      case Str(s) =>
        if Strip(s) != "" {
          StripIsSolid(s);
        }
      case _ =>
    }
    DefaultPolicyIsSolid();
  }

  lemma DefaultPolicyIsSolid()
    ensures Solid("engine_judgement")
  {
  }

  /** Whatever the payload, an interaction that is built has a positive id, a trimmed non-blank
      prompt and policy, and trimmed non-blank labels and field names; an error has a non-blank
      message. */
  lemma BuiltTurnIsWellFormed(py: Py, payload: Members, level: Level)
    ensures match Build(py, payload, level)
      case AskUser(i, l) => WellFormed(i) && l == level
      case Error(reason, message, l) => reason != "" && Strip(message) != "" && l == level
      case Final(_, l) => l == level
  {
    hide NormalizeInteraction, WellFormed, Strip;
    MessagesNotBlank();
    if ExtractInteraction(py, payload).Good? {
      if Field(payload, "interaction").Obj? {
        NormalizedIsWellFormed(py, Field(payload, "interaction").members);
      } else {
        NormalizedIsWellFormed(py, Field(payload, "ask_user").members);
      }
    }
  }

  lemma MessagesNotBlank()
    ensures Strip("invalid final_data payload") != "" && Strip("engine returned error outcome") != ""
    ensures forall reason: string :: Strip("invalid ask_user payload: " + reason) != ""
  {
    StripTrimmed("invalid final_data payload");
    StripTrimmed("engine returned error outcome");
    forall reason: string ensures Strip("invalid ask_user payload: " + reason) != "" {
      var s := "invalid ask_user payload: " + reason;
      assert !IsSpace(s[0]);
    }
  }

  // ---------------------------------------------------------------------------------------
  // Round trips

  lemma {:induction false} ChoicesRoundTrip(choices: seq<Choice>)
    requires forall k :: 0 <= k < |choices| ==> Solid(choices[k].name)
    ensures Choices(ChoiceFields(choices)) == choices
  {
    hide Strip, Get;
    if choices != [] {
      var m := [("label", Str(choices[0].name)), ("value", choices[0].value)];
      ChoicesRoundTrip(choices[1..]);
      StripTrimmed(choices[0].name);
      GetAt(m, 0);
      GetAt(m, 1);
      assert choices == [choices[0]] + choices[1..];
    }
  }

  lemma {:induction false} FieldsRoundTrip(items: seq<string>)
    requires forall k :: 0 <= k < |items| ==> Solid(items[k])
    ensures TrimmedStrings(DumpStrings(items)) == items
  {
    if items != [] {
      FieldsRoundTrip(items[1..]);
      StripTrimmed(items[0]);
      assert items == [items[0]] + items[1..];
    }
  }

  lemma KindHasItsName(k: Kind)
    ensures KindName(k) in KindNames(k) && KindName(k) !in {"decision", "confirmation", "clarification"}
  {
  }

  lemma KindRoundTrip(k: Kind)
    ensures NormalizeKind(Str(KindName(k))) == k
  {
    hide Strip;
    KindNameIsPlain(k);
  }

  lemma KindNameIsPlain(k: Kind)
    ensures Strip(KindName(k)) == KindName(k) && Lower(KindName(k)) == KindName(k)
  {
    hide Strip;
    StripTrimmed(KindName(k));
  }

  lemma FieldsOf(i: Interaction)
    ensures var d := InteractionFields(i);
      && Field(d, "interaction_id") == Int(i.id)
      && Get(d, "kind") == Some(Str(KindName(i.kind)))
      && Field(d, "prompt") == Str(i.prompt)
      && Field(d, "options") == Arr(ChoiceFields(i.choices))
      && Field(d, "ui_hints") == Obj(i.uiHints)
      && Field(d, "default_decision_policy") == Str(i.policy)
      && Field(d, "required_fields") == Arr(DumpStrings(i.requiredFields))
      && Field(d, "context") == (if i.context.Some? then Obj(i.context.value) else Null)
  {
    hide ChoiceFields, DumpStrings, KindName;
    var d := InteractionFields(i);
    GetAt(d, 0);
    GetAt(d, 1);
    GetAt(d, 2);
    GetAt(d, 3);
    GetAt(d, 4);
    GetAt(d, 5);
    GetAt(d, 6);
    GetAt(d, 7);
  }

  /** The fields of a well-formed interaction are normalised to it. */
  lemma FieldsReadBack(py: Py, i: Interaction)
    requires WellFormed(i)
    ensures NormalizeInteraction(py, InteractionFields(i)) == Good(i)
  {
    hide InteractionFields, Choices, ChoiceFields, TrimmedStrings, DumpStrings, NormalizeKind, KindName, Get, Strip;
    FieldsOf(i);
    ChoicesRoundTrip(i.choices);
    FieldsRoundTrip(i.requiredFields);
    KindRoundTrip(i.kind);
    StripTrimmed(i.prompt);
    StripTrimmed(i.policy);
  }

  lemma NulledIsWellFormed(py: Py, i: Interaction)
    requires WellFormed(i)
    ensures WellFormed(Nulled(py, i))
  {
    hide Solid;
  }

  /** A value without NaN and infinities. */
  predicate Finite(py: Py, v: Json) {
    match v
    case Float(token) => py.floatIsFinite(token)
    case Arr(items) => forall k :: 0 <= k < |items| ==> Finite(py, items[k])
    case Obj(members) => forall k :: 0 <= k < |members| ==> Finite(py, members[k].1)
    case _ => true
  }

  predicate FiniteMembers(py: Py, members: Members) {
    forall k :: 0 <= k < |members| ==> Finite(py, members[k].1)
  }

  predicate AllFinite(py: Py, i: Interaction) {
    && FiniteMembers(py, i.uiHints) && (i.context.Some? ==> FiniteMembers(py, i.context.value))
    && FiniteValues(py, i.choices)
  }

  predicate FiniteValues(py: Py, choices: seq<Choice>) {
    forall k :: 0 <= k < |choices| ==> Finite(py, choices[k].value)
  }

  /** Dumping takes out exactly what is not finite. */
  lemma {:induction false} DumpedExactly(py: Py, v: Json)
    ensures Dumped(py, v) == v <==> Finite(py, v)
    ensures Finite(py, Dumped(py, v))
  {
    match v {
      case Arr(items) =>
        var dumped := Dumped(py, v).items;
        forall k | 0 <= k < |items|
          ensures (dumped[k] == items[k] <==> Finite(py, items[k])) && Finite(py, dumped[k]) {
          DumpedExactly(py, items[k]);
        }
        assert dumped == items <==> forall k :: 0 <= k < |items| ==> dumped[k] == items[k];
      case Obj(members) =>
        var dumped := Dumped(py, v).members;
        forall k | 0 <= k < |members|
          ensures (dumped[k] == members[k] <==> Finite(py, members[k].1)) && Finite(py, dumped[k].1) {
          DumpedExactly(py, members[k].1);
        }
        assert dumped == members <==> forall k :: 0 <= k < |members| ==> dumped[k] == members[k];
      case _ =>
    }
  }

  lemma DumpedMembersExactly(py: Py, members: Members)
    ensures DumpedMembers(py, members) == members <==> FiniteMembers(py, members)
    ensures FiniteMembers(py, DumpedMembers(py, members))
  {
    hide Dumped, Finite;
    var dumped := DumpedMembers(py, members);
    forall k | 0 <= k < |members|
      ensures (dumped[k] == members[k] <==> Finite(py, members[k].1)) && Finite(py, dumped[k].1) {
      DumpedExactly(py, members[k].1);
    }
    assert dumped == members <==> forall k :: 0 <= k < |members| ==> dumped[k] == members[k];
  }

  lemma DumpedValuesExactly(py: Py, choices: seq<Choice>)
    ensures DumpedValues(py, choices) == choices <==> FiniteValues(py, choices)
    ensures FiniteValues(py, DumpedValues(py, choices))
  {
    hide Dumped, Finite;
    var dumped := DumpedValues(py, choices);
    forall k | 0 <= k < |choices|
      ensures (dumped[k] == choices[k] <==> Finite(py, choices[k].value)) && Finite(py, dumped[k].value) {
      DumpedExactly(py, choices[k].value);
    }
    assert dumped == choices <==> forall k :: 0 <= k < |choices| ==> dumped[k] == choices[k];
  }

  lemma NulledExactly(py: Py, i: Interaction)
    ensures Nulled(py, i) == i <==> AllFinite(py, i)
    ensures AllFinite(py, Nulled(py, i))
  {
    hide DumpedMembers, DumpedValues, FiniteMembers, FiniteValues;
    DumpedValuesExactly(py, i.choices);
    DumpedMembersExactly(py, i.uiHints);
    if i.context.Some? {
      DumpedMembersExactly(py, i.context.value);
    }
  }

  /** So the dump of a well-formed interaction is read as that interaction exactly if no NaN and no
      infinity is in its hints, its context or the values of its options. */
  lemma InteractionRoundTrip(py: Py, i: Interaction)
    requires WellFormed(i)
    ensures NormalizeInteraction(py, DumpInteraction(py, i)) == Good(Nulled(py, i))
    ensures NormalizeInteraction(py, DumpInteraction(py, i)) == Good(i) <==> AllFinite(py, i)
  {
    hide Nulled, AllFinite, NormalizeInteraction, InteractionFields, WellFormed;
    NulledIsWellFormed(py, i);
    FieldsReadBack(py, Nulled(py, i));
    NulledExactly(py, i);
  }

  lemma AskUserRebuilds(py: Py, i: Interaction, l: Level, level: Level)
    requires WellFormed(i)
    ensures Build(py, Materialize(py, AskUser(i, l)), level) == AskUser(Nulled(py, i), level)
  {
    hide DumpInteraction, NormalizeInteraction, WellFormed, Nulled, AllFinite;
    var m := Materialize(py, AskUser(i, l));
    GetAt(m, 0);
    GetAt(m, 3);
    StripTrimmed("ask_user");
    assert Lower("ask_user") == "ask_user";
    InteractionRoundTrip(py, i);
  }

  /** Building, materialising and building again an ask_user turn turns its NaNs and infinities
      into nulls and changes nothing else; it is the same turn exactly if it has none. */
  lemma AskUserRoundTrip(py: Py, payload: Members, level: Level)
    requires Build(py, payload, level).AskUser?
    ensures var turn := Build(py, payload, level);
      var again := Build(py, Materialize(py, turn), level);
      && again == AskUser(Nulled(py, turn.interaction), level)
      && (again == turn <==> AllFinite(py, turn.interaction))
  {
    BuiltTurnIsWellFormed(py, payload, level);
    hide Build, Nulled, AllFinite;
    var i := Build(py, payload, level).interaction;
    AskUserRebuilds(py, i, level, level);
    NulledExactly(py, i);
  }

  /** Whatever is lost is lost the first time: the turn that comes back, materialised and built
      again, stays as it is. */
  lemma AskUserSettles(py: Py, payload: Members, level: Level)
    requires Build(py, payload, level).AskUser?
    ensures var again := Build(py, Materialize(py, Build(py, payload, level)), level);
      Build(py, Materialize(py, again), level) == again
  {
    AskUserRoundTrip(py, payload, level);
    var turn := Build(py, payload, level);
    NulledExactly(py, turn.interaction);
    hide Build, Nulled, AllFinite;
    AskUserRoundTrip(py, Materialize(py, turn), level);
  }

  /** The condition can fail: an infinity in the hints comes back as null. */
  lemma InfinityBecomesNull(py: Py, level: Level)
    requires !py.floatIsFinite("Infinity")
    ensures var hints := [("x", Float("Infinity"))];
      var turn := Build(py, InfinityPayload(), level);
      && turn.AskUser? && turn.interaction.uiHints == hints
      && var again := Build(py, Materialize(py, turn), level);
         again.AskUser? && again != turn && again.interaction.uiHints == [("x", Null)]
  {
    InfinityTurn(py, level);
    var turn := Build(py, InfinityPayload(), level);
    AskUserRoundTrip(py, InfinityPayload(), level);
    hide Build, Materialize;
    assert turn.interaction.uiHints[0].1 == Float("Infinity");
    assert DumpedMembers(py, turn.interaction.uiHints) == [("x", Null)];
  }

  function InfinityPayload(): Members {
    [("outcome", Str("ask_user")), ("interaction", Obj(InfinityInteraction()))]
  }

  function InfinityInteraction(): Members {
    [("interaction_id", Int(1)), ("prompt", Str("p")), ("ui_hints", Obj([("x", Float("Infinity"))]))]
  }

  lemma InfinityTurn(py: Py, level: Level)
    ensures Build(py, InfinityPayload(), level).AskUser?
    ensures Build(py, InfinityPayload(), level).interaction.uiHints == [("x", Float("Infinity"))]
  {
    hide Choices, TrimmedStrings, NormalizeKind, Strip, Get;
    var p, m := InfinityPayload(), InfinityInteraction();
    GetAt(p, 0);
    GetAt(p, 1);
    GetAt(m, 0);
    GetAt(m, 1);
    GetAt(m, 2);
    StripTrimmed("ask_user");
    assert Lower("ask_user") == "ask_user";
    StripTrimmed("p");
  }

  /** The payload of an ask_user turn says it twice: its outcome with the one copy of the
      interaction and its action with the other each build the turn alone. */
  lemma EitherHalfRebuilds(py: Py, i: Interaction, l: Level, level: Level)
    requires WellFormed(i)
    ensures var m := Materialize(py, AskUser(i, l));
      && |m| == 4
      && Build(py, [m[0], m[2]], level) == AskUser(Nulled(py, i), level)
      && Build(py, [m[1], m[3]], level) == AskUser(Nulled(py, i), level)
  {
    hide DumpInteraction, NormalizeInteraction, WellFormed, Nulled, AllFinite, Strip;
    var m := Materialize(py, AskUser(i, l));
    var first, second := [m[0], m[2]], [m[1], m[3]];
    GetAt(first, 0);
    GetAt(first, 1);
    GetMissing(first, "interaction");
    StripTrimmed("ask_user");
    assert Lower("ask_user") == "ask_user";
    GetAt(second, 0);
    GetAt(second, 1);
    GetMissing(second, "outcome");
    GetMissing(second, "ask_user");
    InteractionRoundTrip(py, i);
  }

  lemma ErrorRebuilds(py: Py, reason: string, message: string, l: Level, level: Level)
    requires Strip(message) != ""
    ensures Build(py, Materialize(py, Error(reason, message, l)), level) == Error(DEFAULT_REASON, message, level)
  {
    hide Strip;
    var m := Materialize(py, Error(reason, message, l));
    var nested := [("code", Str("ADAPTER_TURN_ERROR")), ("message", Str(message))];
    GetAt(m, 0);
    GetAt(m, 1);
    GetAt(nested, 1);
    GetMissing(m, "message");
    GetMissing(m, "failure_reason");
    StripTrimmed("error");
    assert Lower("error") == "error";
  }

  /** An error keeps its outcome and message; its failure reason falls back to the default, so
      the turn is the same exactly when that was its reason. */
  lemma ErrorRoundTrip(py: Py, payload: Members, level: Level)
    requires Build(py, payload, level).Error?
    ensures var turn := Build(py, payload, level);
      var again := Build(py, Materialize(py, turn), level);
      && again == Error(DEFAULT_REASON, turn.message, level)
      && (again == turn <==> turn.reason == DEFAULT_REASON)
      && Field(Materialize(py, turn), "error") == Obj([("code", Str("ADAPTER_TURN_ERROR")), ("message", Str(turn.message))])
  {
    BuiltTurnIsWellFormed(py, payload, level);
    var turn := Build(py, payload, level);
    hide Build;
    ErrorRebuilds(py, turn.reason, turn.message, level, level);
    GetAt(Materialize(py, turn), 1);
  }

  /** Final data that reads as a payload of its own. */
  predicate ReadsAsPayload(data: Members) {
    OutcomeName(data) in {"final", "ask_user", "error"} || LegacyAskUser(data)
  }

  /** A final turn survives exactly when its data carries no recognised outcome and no legacy
      ask_user marker. */
  lemma FinalRoundTrip(py: Py, payload: Members, level: Level)
    requires Build(py, payload, level).Final?
    ensures var turn := Build(py, payload, level);
      Build(py, Materialize(py, turn), level) == turn <==> !ReadsAsPayload(turn.data)
  {
    var turn := Build(py, payload, level);
    assert Materialize(py, turn) == turn.data && turn.level == level;
    FinalRebuilds(py, turn.data, level);
  }

  lemma FinalRebuilds(py: Py, data: Members, level: Level)
    ensures Build(py, data, level) == Final(data, level) <==> !ReadsAsPayload(data)
  {
    hide AskTurn, ErrorMessage, Lower, Get;
    FieldIsNotWhole(data, "final_data");
    AskTurnIsNotFinal(py, data, level);
  }

  lemma AskTurnIsNotFinal(py: Py, payload: Members, level: Level)
    ensures !AskTurn(py, payload, level).Final?
  {
  }

  // ---------------------------------------------------------------------------------------
  // Which payload builds which turn

  /** A text that names `name`, whatever spaces are around it and whatever letters are capital. */
  ghost predicate Names(text: string, name: string) {
    exists core :: Trimmed(core) && Padded(text, core) && SameLetters(core, name)
  }

  lemma NamesExactly(text: string, name: string)
    ensures Lower(Strip(text)) == name <==> Names(text, name)
  {
    hide Strip, Padded, Trimmed, Lower, SameLetters;
    StripExactly(text, Strip(text));
    LowerExactly(Strip(text), name);
    if Names(text, name) {
      var core :| Trimmed(core) && Padded(text, core) && SameLetters(core, name);
      StripExactly(text, core);
    }
  }

  /** The names of a kind, its aliases included. */
  function KindNames(k: Kind): set<string> {
    match k
    case ChooseOne => {"choose_one", "decision"}
    case Confirm => {"confirm", "confirmation"}
    case FillFields => {"fill_fields"}
    case OpenText => {"open_text", "clarification"}
    case UploadFiles => {"upload_files"}
    case RiskAck => {"risk_ack"}
  }

  ghost predicate NamesKind(v: Json, k: Kind) { v.Str? && exists name :: name in KindNames(k) && Names(v.s, name) }

  /** A value means a kind if it names it, and open text if it names none. */
  ghost predicate MeansKind(v: Json, k: Kind) {
    NamesKind(v, k) || (k == OpenText && forall other :: !NamesKind(v, other))
  }

  /** Every name names at most one kind. */
  lemma KindByName(v: Json)
    requires v.Str?
    ensures var k, name := NormalizeKind(v), Lower(Strip(v.s));
      && (forall other :: name in KindNames(other) ==> other == k)
      && (name in KindNames(k) || (k == OpenText && forall other :: name !in KindNames(other)))
  {
    hide Strip, Lower;
  }

  lemma KindExactly(v: Json, k: Kind)
    ensures NormalizeKind(v) == k <==> MeansKind(v, k)
  {
    hide Names, Strip, Lower;
    if v.Str? {
      forall other, name | name in KindNames(other) ensures Names(v.s, name) <==> Lower(Strip(v.s)) == name {
        NamesExactly(v.s, name);
      }
      forall other ensures NamesKind(v, other) <==> Lower(Strip(v.s)) in KindNames(other) {
        if Lower(Strip(v.s)) in KindNames(other) {
          assert Names(v.s, Lower(Strip(v.s)));
        }
      }
      hide NamesKind;
      KindByName(v);
    } else {
      assert forall other :: !NamesKind(v, other);
    }
  }

  /** A string that is not blank, without the spaces around it. */
  ghost predicate Holds(v: Json, core: string) {
    v.Str? && Solid(core) && Padded(v.s, core)
  }

  lemma HoldsExactly(v: Json, core: string)
    ensures Holds(v, core) <==> v.Str? && Strip(v.s) == core != ""
  {
    hide Strip, Padded;
    if v.Str? {
      StripExactly(v.s, core);
    }
  }

  ghost predicate Blank(v: Json) { forall core :: !Holds(v, core) }

  lemma BlankExactly(v: Json)
    ensures Blank(v) <==> !(v.Str? && Strip(v.s) != "")
  {
    hide Strip, Holds;
    if v.Str? {
      HoldsExactly(v, Strip(v.s));
    }
    forall core ensures Holds(v, core) ==> v.Str? && Strip(v.s) != "" {
      HoldsExactly(v, core);
    }
  }

  /** The choices that a list of options offers: an entry with a label that is no blank string
      offers one, every other entry none. */
  ghost predicate Offers(items: seq<Json>, choices: seq<Choice>) {
    if items == [] then choices == []
    else
      var most, item := items[..|items| - 1], items[|items| - 1];
      if !item.Obj? || Blank(Field(item.members, "label")) then Offers(most, choices)
      else
        choices != []
        && var last := choices[|choices| - 1];
           Holds(Field(item.members, "label"), last.name) && last.value == Field(item.members, "value")
           && Offers(most, choices[..|choices| - 1])
  }

  /** The names that a list of fields holds. */
  ghost predicate Requires(items: seq<Json>, names: seq<string>) {
    if items == [] then names == []
    else
      var most, item := items[..|items| - 1], items[|items| - 1];
      if Blank(item) then Requires(most, names)
      else names != [] && Holds(item, names[|names| - 1]) && Requires(most, names[..|names| - 1])
  }

  lemma {:induction false} ChoicesSnoc(items: seq<Json>, item: Json)
    ensures Choices(items + [item]) == Choices(items) + Choices([item])
  {
    if items == [] {
      assert items + [item] == [item];
    } else {
      assert (items + [item])[1..] == items[1..] + [item];
      ChoicesSnoc(items[1..], item);
    }
  }

  lemma {:induction false} NamesSnoc(items: seq<Json>, item: Json)
    ensures TrimmedStrings(items + [item]) == TrimmedStrings(items) + TrimmedStrings([item])
  {
    if items == [] {
      assert items + [item] == [item];
    } else {
      assert (items + [item])[1..] == items[1..] + [item];
      NamesSnoc(items[1..], item);
    }
  }

  lemma ChoiceOf(item: Json)
    ensures Choices([item]) ==
      if !item.Obj? || Blank(Field(item.members, "label")) then []
      else [Choice(Strip(Field(item.members, "label").s), Field(item.members, "value"))]
    ensures item.Obj? && !Blank(Field(item.members, "label")) ==> Field(item.members, "label").Str?
  {
    hide Strip, Field, Blank;
    assert [item][1..] == [];
    if item.Obj? {
      BlankExactly(Field(item.members, "label"));
    }
  }

  lemma NameOf(item: Json)
    ensures TrimmedStrings([item]) == if Blank(item) then [] else [Strip(item.s)]
    ensures !Blank(item) ==> item.Str?
  {
    hide Strip, Blank;
    assert [item][1..] == [];
    BlankExactly(item);
  }

  lemma {:induction false} OffersExactly(items: seq<Json>, choices: seq<Choice>)
    ensures Offers(items, choices) <==> choices == Choices(items)
    decreases |items|
  {
    hide Choices, Strip, Field, Blank, Holds;
    if items != [] {
      var most, item := items[..|items| - 1], items[|items| - 1];
      assert items == most + [item];
      ChoicesSnoc(most, item);
      ChoiceOf(item);
      if !item.Obj? || Blank(Field(item.members, "label")) {
        OffersExactly(most, choices);
        assert Choices(most) + [] == Choices(most);
      } else if choices != [] {
        var front, last := choices[..|choices| - 1], choices[|choices| - 1];
        assert choices == front + [last];
        OffersExactly(most, front);
        HoldsExactly(Field(item.members, "label"), last.name);
        BlankExactly(Field(item.members, "label"));
        LastOfBoth(Choices(most), front, Choices([item])[0], last);
      }
    } else {
      assert Choices(items) == [] by { NoChoices(); }
    }
  }

  lemma NoChoices()
    ensures Choices([]) == [] && TrimmedStrings([]) == []
  {
  }

  lemma LastOfBoth<T>(a: seq<T>, b: seq<T>, x: T, y: T)
    ensures a + [x] == b + [y] <==> a == b && x == y
  {
    if a + [x] == b + [y] {
      assert a == (a + [x])[..|a|] && b == (b + [y])[..|b|];
      assert x == (a + [x])[|a|];
    }
  }

  lemma {:induction false} RequiresExactly(items: seq<Json>, names: seq<string>)
    ensures Requires(items, names) <==> names == TrimmedStrings(items)
    decreases |items|
  {
    hide TrimmedStrings, Strip, Blank, Holds;
    if items != [] {
      var most, item := items[..|items| - 1], items[|items| - 1];
      assert items == most + [item];
      NamesSnoc(most, item);
      NameOf(item);
      if Blank(item) {
        RequiresExactly(most, names);
        assert TrimmedStrings(most) + [] == TrimmedStrings(most);
      } else if names != [] {
        var front, last := names[..|names| - 1], names[|names| - 1];
        assert names == front + [last];
        RequiresExactly(most, front);
        HoldsExactly(item, last);
        BlankExactly(item);
        LastOfBoth(TrimmedStrings(most), front, TrimmedStrings([item])[0], last);
      }
    } else {
      assert TrimmedStrings(items) == [] by { NoChoices(); }
    }
  }

  /** What Python takes for false. */
  predicate Falsy(py: Py, v: Json) {
    v in {Null, Bool(false), Int(0), Str(""), Arr([]), Obj([])} || (v.Float? && py.floatIsZero(v.token))
  }

  /** What `int` makes of the value. */
  predicate IntOf(py: Py, v: Json, n: int) {
    || v == Int(n) || (v == Bool(true) && n == 1) || (v == Bool(false) && n == 0)
    || (v.Float? && py.floatToInt(v.token) == Some(n)) || (v.Str? && py.stringToInt(v.s) == Some(n))
  }

  lemma FalsyExactly(py: Py, v: Json)
    ensures Truthy(py, v) <==> !Falsy(py, v)
  {
  }

  lemma IntExactly(py: Py, v: Json, n: int)
    ensures ToInt(py, v) == Some(n) <==> IntOf(py, v, n)
  {
  }

  function Asked(py: Py, payload: Members): Json {
    if Falsy(py, Field(payload, "prompt")) then Field(payload, "question") else Field(payload, "prompt")
  }

  /** The payload asks for this interaction: a prompt, or without one a question; names in any
      case and with any spaces around them; a value of another type counts as missing. */
  ghost predicate Asks(py: Py, payload: Members, i: Interaction) {
    && i.id >= 1 && IntOf(py, Field(payload, "interaction_id"), i.id)
    && Holds(Asked(py, payload), i.prompt)
    && (if Get(payload, "kind").Some? then MeansKind(Field(payload, "kind"), i.kind) else i.kind == OpenText)
    && (if Field(payload, "options").Arr? then Offers(Field(payload, "options").items, i.choices) else i.choices == [])
    && i.uiHints == (if Field(payload, "ui_hints").Obj? then Field(payload, "ui_hints").members else [])
    && (if Blank(Field(payload, "default_decision_policy")) then i.policy == "engine_judgement"
        else Holds(Field(payload, "default_decision_policy"), i.policy))
    && (if Field(payload, "required_fields").Arr? then Requires(Field(payload, "required_fields").items, i.requiredFields)
        else i.requiredFields == [])
    && i.context == (if Field(payload, "context").Obj? then Some(Field(payload, "context").members) else None)
  }

  lemma PartsExactly(py: Py, payload: Members, i: Interaction)
    ensures Holds(PromptOf(py, payload), i.prompt) <==>
      PromptOf(py, payload).Str? && Strip(PromptOf(py, payload).s) == i.prompt != ""
    ensures MeansKind(Field(payload, "kind"), i.kind) <==> NormalizeKind(Field(payload, "kind")) == i.kind
    ensures Field(payload, "options").Arr? ==>
      (Offers(Field(payload, "options").items, i.choices) <==> i.choices == Choices(Field(payload, "options").items))
    ensures var policy := Field(payload, "default_decision_policy");
      && (Blank(policy) <==> !(policy.Str? && Strip(policy.s) != ""))
      && (Holds(policy, i.policy) <==> policy.Str? && Strip(policy.s) == i.policy != "")
    ensures Field(payload, "required_fields").Arr? ==>
      (Requires(Field(payload, "required_fields").items, i.requiredFields) <==>
       i.requiredFields == TrimmedStrings(Field(payload, "required_fields").items))
  {
    hide *;
    HoldsExactly(PromptOf(py, payload), i.prompt);
    KindExactly(Field(payload, "kind"), i.kind);
    BlankExactly(Field(payload, "default_decision_policy"));
    HoldsExactly(Field(payload, "default_decision_policy"), i.policy);
    if Field(payload, "options").Arr? {
      OffersExactly(Field(payload, "options").items, i.choices);
    }
    if Field(payload, "required_fields").Arr? {
      RequiresExactly(Field(payload, "required_fields").items, i.requiredFields);
    }
  }

  /** Normalising a payload gives an interaction exactly if the payload asks for it. */
  lemma AsksExactly(py: Py, payload: Members, i: Interaction)
    ensures NormalizeInteraction(py, payload) == Good(i) <==> Asks(py, payload, i)
  {
    hide Holds, Blank, MeansKind, Offers, Requires, Choices, TrimmedStrings, NormalizeKind, Strip, Field, Get, Truthy, ToInt;
    PartsExactly(py, payload, i);
    IntExactly(py, Field(payload, "interaction_id"), i.id);
    AskedExactly(py, payload);
    hide IntOf, Asked, Falsy;
  }

  lemma AskedExactly(py: Py, payload: Members)
    ensures Asked(py, payload) == PromptOf(py, payload)
  {
    FalsyExactly(py, Field(payload, "prompt"));
    hide Truthy, Falsy, Field;
  }

  /** The outcome of a payload, in any case and with any spaces around it. */
  ghost predicate Declares(payload: Members, outcome: string) {
    Field(payload, "outcome").Str? && Names(Field(payload, "outcome").s, outcome)
  }

  ghost predicate DeclaresNothing(payload: Members) {
    !Declares(payload, "final") && !Declares(payload, "ask_user") && !Declares(payload, "error")
  }

  /** Where the interaction of a payload is. */
  predicate Carries(payload: Members, inner: Members) {
    Field(payload, "interaction") == Obj(inner) || (!Field(payload, "interaction").Obj? && Field(payload, "ask_user") == Obj(inner))
  }

  /** Why a payload asks for nothing. */
  ghost predicate Refused(py: Py, payload: Members, why: string) {
    if !Field(payload, "interaction").Obj? && !Field(payload, "ask_user").Obj? then why == "missing interaction payload"
    else exists inner :: Carries(payload, inner) && Unfit(py, inner, why)
  }

  ghost predicate Unfit(py: Py, inner: Members, why: string) {
    if forall n :: !IntOf(py, Field(inner, "interaction_id"), n) then why == "missing interaction_id"
    else if forall n :: IntOf(py, Field(inner, "interaction_id"), n) ==> n < 1 then why == "invalid interaction_id"
    else Blank(Asked(py, inner)) && why == "missing prompt"
  }

  /** The message of an error payload: its own, or without one the message of its error object,
      as they stand, or a fixed text if there is none that is not blank. */
  ghost predicate Tells(payload: Members, message: string) {
    var own := Field(payload, "message");
    var error := Field(payload, "error");
    var told := if Blank(own) && error.Obj? && Field(error.members, "message").Str? then Field(error.members, "message") else own;
    if Blank(told) then message == "engine returned error outcome" else told == Str(message)
  }

  /** The markers of the older payload shape: an `ask_user` object, or an interaction together with
      an action or a type of that name. */
  predicate OldShape(payload: Members) {
    || Field(payload, "ask_user").Obj?
    || (Field(payload, "interaction").Obj? && exists key :: key in {"action", "type"} && Field(payload, key) == Str("ask_user"))
  }

  lemma OldShapeExactly(payload: Members)
    ensures LegacyAskUser(payload) <==> OldShape(payload)
  {
    hide Field;
  }

  /** Which payload builds which turn. */
  ghost predicate Builds(py: Py, payload: Members, turn: Turn) {
    var asks := Declares(payload, "ask_user") || (DeclaresNothing(payload) && OldShape(payload));
    match turn
    case Final(data, _) =>
      || (Declares(payload, "final") && Field(payload, "final_data") == Obj(data))
      || (DeclaresNothing(payload) && !OldShape(payload) && data == payload)
    case AskUser(i, _) => asks && exists inner :: Carries(payload, inner) && Asks(py, inner, i)
    case Error(reason, message, _) =>
      || (Declares(payload, "error") && Tells(payload, message)
          && reason == (if Field(payload, "failure_reason").Str? && Field(payload, "failure_reason").s != ""
                        then Field(payload, "failure_reason").s else "ADAPTER_TURN_ERROR"))
      || (Declares(payload, "final") && !Field(payload, "final_data").Obj?
          && reason == "ADAPTER_TURN_ERROR" && message == "invalid final_data payload")
      || (asks && reason == "ADAPTER_TURN_ERROR"
          && exists why :: Refused(py, payload, why) && message == "invalid ask_user payload: " + why)
  }

  lemma DeclaresExactly(payload: Members, outcome: string)
    requires outcome != ""
    ensures OutcomeName(payload) == outcome <==> Declares(payload, outcome)
  {
    hide Names, Strip, Lower, Field;
    match Field(payload, "outcome") {
      case Str(s) => NamesExactly(s, outcome);
      case _ =>
    }
  }

  lemma ExtractGood(py: Py, payload: Members, i: Interaction)
    ensures ExtractInteraction(py, payload) == Good(i) <==> exists inner :: Carries(payload, inner) && Asks(py, inner, i)
  {
    hide NormalizeInteraction, Asks, Field;
    forall inner ensures NormalizeInteraction(py, inner) == Good(i) <==> Asks(py, inner, i) {
      AsksExactly(py, inner, i);
    }
    CarriesOne(payload);
  }

  lemma ExtractBad(py: Py, payload: Members, why: string)
    ensures ExtractInteraction(py, payload) == Bad(why) <==> Refused(py, payload, why)
  {
    hide NormalizeInteraction, Unfit, Field;
    forall inner ensures NormalizeInteraction(py, inner) == Bad(why) <==> Unfit(py, inner, why) {
      UnfitExactly(py, inner, why);
    }
    CarriesOne(payload);
  }

  lemma CarriesOne(payload: Members)
    ensures Field(payload, "interaction").Obj? ==>
      forall inner :: Carries(payload, inner) <==> inner == Field(payload, "interaction").members
    ensures !Field(payload, "interaction").Obj? && Field(payload, "ask_user").Obj? ==>
      forall inner :: Carries(payload, inner) <==> inner == Field(payload, "ask_user").members
    ensures !Field(payload, "interaction").Obj? && !Field(payload, "ask_user").Obj? ==>
      forall inner :: !Carries(payload, inner)
  {
    hide Field;
  }

  lemma UnfitExactly(py: Py, inner: Members, why: string)
    ensures NormalizeInteraction(py, inner) == Bad(why) <==> Unfit(py, inner, why)
  {
    hide Blank, Choices, TrimmedStrings, NormalizeKind, Strip, Field, Get, ToInt, PromptOf, Asked, IntOf;
    BlankExactly(PromptOf(py, inner));
    AskedExactly(py, inner);
    forall n ensures ToInt(py, Field(inner, "interaction_id")) == Some(n) <==> IntOf(py, Field(inner, "interaction_id"), n) {
      IntExactly(py, Field(inner, "interaction_id"), n);
    }
  }

  lemma TellsExactly(payload: Members, message: string)
    ensures ErrorMessage(payload) == message <==> Tells(payload, message)
  {
    hide Blank, Strip, Field;
    var own := Field(payload, "message");
    BlankExactly(own);
    match Field(payload, "error") {
      case Obj(nested) => BlankExactly(Field(nested, "message"));
      case _ =>
    }
  }

  lemma AskTurnExactly(py: Py, payload: Members, level: Level, turn: Turn)
    ensures AskTurn(py, payload, level) == turn <==>
      turn.level == level
      && match turn
         case Final(_, _) => false
         case AskUser(i, _) => exists inner :: Carries(payload, inner) && Asks(py, inner, i)
         case Error(reason, message, _) =>
           reason == "ADAPTER_TURN_ERROR" && exists why :: Refused(py, payload, why) && message == "invalid ask_user payload: " + why
  {
    hide ExtractInteraction, Carries, Asks, Refused;
    match turn {
      case AskUser(i, _) => ExtractGood(py, payload, i);
      case Error(_, _, _) =>
        forall why ensures ExtractInteraction(py, payload) == Bad(why) <==> Refused(py, payload, why) {
          ExtractBad(py, payload, why);
        }
        if ExtractInteraction(py, payload).Bad? {
          assert Refused(py, payload, ExtractInteraction(py, payload).reason);
        }
      case Final(_, _) =>
    }
  }

  /** A payload builds a turn exactly if it is one of the payloads that should. */
  lemma BuildExactly(py: Py, payload: Members, level: Level, turn: Turn)
    ensures Build(py, payload, level) == turn <==> turn.level == level && Builds(py, payload, turn)
  {
    hide AskTurn, Carries, Asks, Refused, ErrorMessage, Tells, OutcomeName, Declares, Field;
    DeclaresExactly(payload, "final");
    DeclaresExactly(payload, "ask_user");
    DeclaresExactly(payload, "error");
    AskTurnExactly(py, payload, level, turn);
    OldShapeExactly(payload);
    hide LegacyAskUser, OldShape;
    if turn.Error? {
      TellsExactly(payload, turn.message);
    }
  }

  // ---------------------------------------------------------------------------------------
  // An envelope for every turn

  predicate WellFormedTurn(turn: Turn) {
    match turn
    case Final(_, _) => true
    case AskUser(i, _) => WellFormed(i)
    case Error(reason, message, _) => reason != "" && Strip(message) != ""
  }

  /** The payload of a turn in full. */
  function Envelope(turn: Turn): Members {
    match turn
    case Final(data, _) => [("outcome", Str("final")), ("final_data", Obj(data))]
    case AskUser(i, _) => [("outcome", Str("ask_user")), ("interaction", Obj(InteractionFields(i)))]
    case Error(reason, message, _) =>
      [("outcome", Str("error")), ("failure_reason", Str(reason)), ("message", Str(message))]
  }

  lemma PlainOutcome(payload: Members, name: string)
    requires name in {"final", "ask_user", "error"} && Field(payload, "outcome") == Str(name)
    ensures OutcomeName(payload) == name
  {
    StripTrimmed(name);
    assert Lower(name) == name;
  }

  /** Building the envelope of a turn gives the turn, whatever it is: data that reads as a payload
      of its own, any failure reason, any values. */
  lemma EnvelopeRoundTrip(py: Py, turn: Turn)
    requires WellFormedTurn(turn)
    ensures Build(py, Envelope(turn), turn.level) == turn
  {
    hide Strip, NormalizeInteraction, InteractionFields, WellFormed;
    var e := Envelope(turn);
    GetAt(e, 0);
    GetAt(e, 1);
    match turn {
      case Final(_, _) => PlainOutcome(e, "final");
      case AskUser(i, _) =>
        PlainOutcome(e, "ask_user");
        FieldsReadBack(py, i);
      case Error(_, _, _) =>
        PlainOutcome(e, "error");
        GetAt(e, 2);
    }
  }
}
