/** The store of Claude custom providers. */
module ProviderStore {
  import opened PyText
  import opened Json
  import opened Sorting
  import opened StringOrder

  datatype Provider = Provider(id: string, apiKey: string, baseUrl: string, models: seq<string>)

  /** A value, or the ValueError of a normaliser. */
  datatype Outcome<+T> = Ok(value: T) | ValueError

  /** `str` and truth of stored values that are no strings, which the Python runtime decides. */
  datatype Py = Py(str: Json -> string, truthy: Json -> bool)

  /** The order of `key=lambda item: item.provider_id`. */
  predicate ById(a: Provider, b: Provider) { Leq(a.id, b.id) }

  lemma ByIdIsOrder()
    ensures TotalOrder(ById)
  {
    LeqIsOrder();
  }

  // ---------------------------------------------------------------------------------------
  // Normalisers

  /** `_normalize_provider_id`. */
  function NormalizeId(id: string): Outcome<string> {
    var n := Lower(Strip(id));
    if n == "" || '/' in n then ValueError else Ok(n)
  }

  /** `_normalize_model_name`. */
  function NormalizeModel(model: string): Outcome<string> {
    var n := Strip(model);
    if n == "" || '/' in n then ValueError else Ok(n)
  }

  /** The normalised names in order, each once: `dict.fromkeys`. */
  function NormalizeModels(models: seq<string>): Outcome<seq<string>> {
    if models == [] then Ok([])
    else
      match (NormalizeModels(models[..|models| - 1]), NormalizeModel(models[|models| - 1]))
      case (Ok(front), Ok(last)) => Ok(if last in front then front else front + [last])
      case _ => ValueError
  }

  /** `_normalize_provider_fields`. */
  function NormalizeFields(id: string, apiKey: string, baseUrl: string, models: seq<string>): Outcome<Provider> {
    match (NormalizeId(id), NormalizeModels(models))
    case (Ok(i), Ok(m)) =>
      if Strip(apiKey) == "" || Strip(baseUrl) == "" || m == [] then ValueError
      else Ok(Provider(i, Strip(apiKey), Strip(baseUrl), m))
    case _ => ValueError
  }

  /** `str(value or "")`. */
  function TextOr(py: Py, v: Json): string {
    match v
    case Str(s) => s
    case Null => ""
    case _ => if py.truthy(v) then py.str(v) else ""
  }

  function Texts(py: Py, items: seq<Json>): (r: seq<string>)
    ensures |r| == |items|
  {
    seq(|items|, k requires 0 <= k < |items| => if items[k].Str? then items[k].s else py.str(items[k]))
  }

  /** `_normalize_provider_payload`. */
  function NormalizeRow(py: Py, raw: Json): Option<Provider> {
    match raw
    case Obj(row) =>
      (match Field(row, "models")
       case Arr(models) =>
         (match NormalizeFields(TextOr(py, Field(row, "provider_id")), TextOr(py, Field(row, "api_key")),
                                TextOr(py, Field(row, "base_url")), Texts(py, models))
          case Ok(p) => Some(p)
          case ValueError => None)
       case _ => None)
    case _ => None
  }

  function NormalizeRows(py: Py, rows: seq<Json>): seq<Provider> {
    if rows == [] then []
    else
      var front := NormalizeRows(py, rows[..|rows| - 1]);
      match NormalizeRow(py, rows[|rows| - 1])
      case Some(p) => front + [p]
      case None => front
  }

  /** `_to_payload_row`. */
  function ToRow(p: Provider): Json {
    Obj([("provider_id", Str(p.id)), ("api_key", Str(p.apiKey)), ("base_url", Str(p.baseUrl)),
         ("models", Arr(StrItems(p.models)))])
  }

  function StrItems(items: seq<string>): (r: seq<Json>)
    ensures |r| == |items| && forall k :: 0 <= k < |items| ==> r[k] == Str(items[k])
  {
    seq(|items|, k requires 0 <= k < |items| => Str(items[k]))
  }

  function ToRows(providers: seq<Provider>): (r: seq<Json>)
    ensures |r| == |providers| && forall k :: 0 <= k < |providers| ==> r[k] == ToRow(providers[k])
  {
    seq(|providers|, k requires 0 <= k < |providers| => ToRow(providers[k]))
  }

  // ---------------------------------------------------------------------------------------
  // What the operations do to the stored providers

  function ReplaceOrAppend(providers: seq<Provider>, p: Provider): seq<Provider> {
    var replaced := Replaced(providers, p);
    if HasId(providers, p.id) then replaced else replaced + [p]
  }

  function Replaced(providers: seq<Provider>, p: Provider): (r: seq<Provider>)
    ensures |r| == |providers|
    ensures forall k :: 0 <= k < |r| ==> r[k] == if providers[k].id == p.id then p else providers[k]
  {
    seq(|providers|, k requires 0 <= k < |providers| => if providers[k].id == p.id then p else providers[k])
  }

  predicate HasId(providers: seq<Provider>, id: string) {
    exists k :: 0 <= k < |providers| && providers[k].id == id
  }

  function Upserted(providers: seq<Provider>, p: Provider): seq<Provider> {
    Sort(ById, ReplaceOrAppend(providers, p))
  }

  function Without(providers: seq<Provider>, id: string): seq<Provider> {
    if providers == [] then []
    else
      var front := Without(providers[..|providers| - 1], id);
      if providers[|providers| - 1].id == id then front else front + [providers[|providers| - 1]]
  }

  /** The rows of the stored payload; anything but a list counts as none. */
  function RowsOf(stored: Json): seq<Json> {
    if stored.Arr? then stored.items else []
  }

  function Providers(py: Py, stored: Json): seq<Provider> {
    NormalizeRows(py, RowsOf(stored))
  }

  /** `_strip_1m_suffix`, without its flag. */
  function StripSuffix(model: string): string {
    Strip(RemoveAll(Strip(model), 0))
  }

  /** `s[i:].replace("[1m]", "")`. */
  function RemoveAll(s: string, i: nat): string
    requires i <= |s|
    decreases |s| - i
  {
    if i == |s| then ""
    else if OccursAt(s, i, "[1m]") then RemoveAll(s, i + 4)
    else [s[i]] + RemoveAll(s, i + 1)
  }

  datatype Resolved = Resolved(id: string, model: string, apiKey: string, baseUrl: string)

  /** `s.find("/")`. */
  function FindSlash(s: string, i: nat): (r: Option<nat>)
    requires i <= |s|
    ensures r.Some? ==> i <= r.value < |s| && s[r.value] == '/'
    decreases |s| - i
  {
    if i == |s| then None else if s[i] == '/' then Some(i) else FindSlash(s, i + 1)
  }

  function FirstMatch(providers: seq<Provider>, id: string, model: string): Option<Resolved> {
    if providers == [] then None
    else
      var p, stripped := providers[0], StripSuffix(model);
      if p.id == id && (model in p.models || (stripped != Strip(model) && stripped in p.models)) then
        Some(Resolved(p.id, stripped, p.apiKey, p.baseUrl))
      else FirstMatch(providers[1..], id, model)
  }

  /** `resolve_model` over the listed providers. */
  function Resolve(providers: seq<Provider>, spec: string): Outcome<Option<Resolved>> {
    var s := Strip(spec);
    match FindSlash(s, 0)
    case None => Ok(None)
    case Some(k) =>
      match (NormalizeId(s[..k]), NormalizeModel(s[k + 1..]))
      case (Ok(id), Ok(model)) => Ok(FirstMatch(providers, id, model))
      case _ => ValueError
  }

  function SpecsOf(p: Provider): (r: seq<string>)
    ensures |r| == |p.models| && forall k :: 0 <= k < |r| ==> r[k] == p.id + "/" + p.models[k]
  {
    seq(|p.models|, k requires 0 <= k < |p.models| => p.id + "/" + p.models[k])
  }

  function AllSpecs(providers: seq<Provider>): seq<string> {
    if providers == [] then [] else AllSpecs(providers[..|providers| - 1]) + SpecsOf(providers[|providers| - 1])
  }

  /** `ClaudeCustomProviderStore`, its payload file as a field. */
  class Store {
    const py: Py
    var stored: Json

    constructor (py: Py)
      ensures this.py == py && stored == Arr([])
    {
      this.py, stored := py, Arr([]);
    }

    method ListProviders() returns (providers: seq<Provider>)
      ensures providers == Sort(ById, Providers(py, stored))
    {
      hide NormalizeRow, Sort;
      var rows := RowsOf(stored);
      providers := [];
      for k := 0 to |rows|
        invariant providers == NormalizeRows(py, rows[..k])
      {
        assert rows[..k + 1][..k] == rows[..k];
        var normalized := NormalizeRow(py, rows[k]);
        if normalized.Some? {
          providers := providers + [normalized.value];
        }
      }
      assert rows[..|rows|] == rows;
      providers := Sort(ById, providers);
    }

    method UpsertProvider(id: string, apiKey: string, baseUrl: string, models: seq<string>) returns (r: Outcome<Provider>)
      modifies this
      ensures r == NormalizeFields(id, apiKey, baseUrl, models)
      ensures stored == if r.Ok? then Arr(ToRows(Upserted(Providers(py, old(stored)), r.value))) else old(stored)
    {
      hide NormalizeRow, NormalizeFields, ToRow, Replaced, HasId;
      r := NormalizeFields(id, apiKey, baseUrl, models);
      if r.ValueError? {
        return;
      }
      var normalized := r.value;
      NobodyHasId(normalized.id);
      var rows, next, replaced := RowsOf(stored), [], false;
      for k := 0 to |rows|
        invariant next == Replaced(NormalizeRows(py, rows[..k]), normalized)
        invariant replaced == HasId(NormalizeRows(py, rows[..k]), normalized.id)
      {
        assert rows[..k + 1][..k] == rows[..k];
        ReplacedSnoc(py, rows, k, normalized);
        var existing := NormalizeRow(py, rows[k]);
        if existing.Some? {
          if existing.value.id == normalized.id {
            next := next + [normalized];
            replaced := true;
          } else {
            next := next + [existing.value];
          }
        }
      }
      assert rows[..|rows|] == rows;
      if !replaced {
        next := next + [normalized];
      }
      stored := Arr(ToRows(Sort(ById, next)));
    }

    method DeleteProvider(id: string) returns (r: Outcome<bool>)
      modifies this
      ensures NormalizeId(id).ValueError? ==> r == ValueError && stored == old(stored)
      ensures NormalizeId(id).Ok? ==>
        var providers, n := Providers(py, old(stored)), NormalizeId(id).value;
        r == Ok(HasId(providers, n))
        && stored == if HasId(providers, n) then Arr(ToRows(Without(providers, n))) else old(stored)
    {
      hide NormalizeRow, NormalizeId, ToRows, HasId;
      var normalizedId := NormalizeId(id);
      if normalizedId.ValueError? {
        return ValueError;
      }
      var n := normalizedId.value;
      var rows, next, removed := RowsOf(stored), [], false;
      assert !HasId([], n) by { NobodyHasId(n); }
      for k := 0 to |rows|
        invariant next == Without(NormalizeRows(py, rows[..k]), n) && stored == old(stored)
        invariant removed == HasId(NormalizeRows(py, rows[..k]), n)
      {
        assert rows[..k + 1][..k] == rows[..k];
        WithoutSnoc(py, rows, k, n);
        var existing := NormalizeRow(py, rows[k]);
        if existing.Some? {
          if existing.value.id == n {
            removed := true;
          } else {
            next := next + [existing.value];
          }
        }
      }
      assert rows[..|rows|] == rows;
      if removed {
        stored := Arr(ToRows(next));
      }
      return Ok(removed);
    }

    method ResolveModel(spec: string) returns (r: Outcome<Option<Resolved>>)
      ensures r == Resolve(Sort(ById, Providers(py, stored)), spec)
    {
      hide NormalizeId, NormalizeModel, StripSuffix, FindSlash, Providers, Strip;
      var s := Strip(spec);
      var slash := FindSlash(s, 0);
      if slash.None? {
        return Ok(None);
      }
      var id, model := NormalizeId(s[..slash.value]), NormalizeModel(s[slash.value + 1..]);
      if id.ValueError? || model.ValueError? {
        return ValueError;
      }
      var stripped := StripSuffix(model.value);
      var hasSuffix := stripped != Strip(model.value);
      var providers := ListProviders();
      for k := 0 to |providers|
        invariant FirstMatch(providers, id.value, model.value) == FirstMatch(providers[k..], id.value, model.value)
      {
        var p := providers[k];
        assert providers[k..] == [p] + providers[k + 1..];
        if p.id == id.value {
          if model.value in p.models || (hasSuffix && stripped in p.models) {
            return Ok(Some(Resolved(p.id, stripped, p.apiKey, p.baseUrl)));
          }
        }
      }
      return Ok(None);
    }

    method ListModelSpecs() returns (specs: seq<string>)
      ensures specs == Sort(Leq, AllSpecs(Sort(ById, Providers(py, stored))))
    {
      hide Providers;
      var providers := ListProviders();
      specs := [];
      for k := 0 to |providers|
        invariant specs == AllSpecs(providers[..k])
      {
        assert providers[..k + 1][..k] == providers[..k];
        var p := providers[k];
        for j := 0 to |p.models|
          invariant specs == AllSpecs(providers[..k]) + SpecsOf(p)[..j]
        {
          specs := specs + [p.id + "/" + p.models[j]];
        }
      }
      assert providers[..|providers|] == providers;
      specs := Sort(Leq, specs);
    }

    /** Any sequence of operations on an empty store: it ends up holding what a map would. */
    method Perform(ops: seq<Operation>)
      requires stored == Arr([])
      modifies this
      ensures stored == StoredAfter(py, ops)
      ensures Tidy(Providers(py, stored)) && AsMap(Providers(py, stored)) == MapAfter(ops)
    {
      hide NormalizeFields, NormalizeId, Providers, Upserted, Without, HasId, Tidy, AsMap, ToRows;
      assert ops[..0] == [];
      for k := 0 to |ops|
        invariant stored == StoredAfter(py, ops[..k])
      {
        assert ops[..k + 1][..k] == ops[..k];
        match ops[k] {
          case Upsert(id, apiKey, baseUrl, models) =>
            var outcome := UpsertProvider(id, apiKey, baseUrl, models);
          case Delete(id) =>
            var outcome := DeleteProvider(id);
        }
      }
      assert ops[..|ops|] == ops;
      StoreRefinesMap(py, ops);
    }
  }

  lemma NobodyHasId(id: string)
    ensures !HasId([], id)
  {
  }

  lemma ReplacedSnoc(py: Py, rows: seq<Json>, k: nat, p: Provider)
    requires k < |rows|
    ensures var before, after := NormalizeRows(py, rows[..k]), NormalizeRows(py, rows[..k + 1]);
      match NormalizeRow(py, rows[k])
      case None => after == before
      case Some(e) =>
        Replaced(after, p) == Replaced(before, p) + [if e.id == p.id then p else e]
        && (HasId(after, p.id) <==> HasId(before, p.id) || e.id == p.id)
  {
    hide NormalizeRow;
    assert rows[..k + 1][..k] == rows[..k];
    HasIdSnoc(NormalizeRows(py, rows[..k]), NormalizeRows(py, rows[..k + 1]), p.id);
  }

  lemma HasIdSnoc(before: seq<Provider>, after: seq<Provider>, id: string)
    requires before <= after && |after| <= |before| + 1
    ensures HasId(after, id) <==> HasId(before, id) || (|after| > |before| && after[|before|].id == id)
  {
    if HasId(before, id) {
      var k :| 0 <= k < |before| && before[k].id == id;
      assert after[k].id == id;
    }
  }

  lemma WithoutSnoc(py: Py, rows: seq<Json>, k: nat, id: string)
    requires k < |rows|
    ensures var before, after := NormalizeRows(py, rows[..k]), NormalizeRows(py, rows[..k + 1]);
      match NormalizeRow(py, rows[k])
      case None => after == before
      case Some(e) =>
        Without(after, id) == (if e.id == id then Without(before, id) else Without(before, id) + [e])
        && (HasId(after, id) <==> HasId(before, id) || e.id == id)
  {
    hide NormalizeRow;
    assert rows[..k + 1][..k] == rows[..k];
    var before, after := NormalizeRows(py, rows[..k]), NormalizeRows(py, rows[..k + 1]);
    HasIdSnoc(before, after, id);
    if NormalizeRow(py, rows[k]).Some? {
      assert after[..|after| - 1] == before;
    }
  }

  // ---------------------------------------------------------------------------------------
  // Normalised providers

  predicate NormalModel(m: string) { Solid(m) && '/' !in m }

  predicate Normal(p: Provider) {
    && Solid(p.id) && Lower(p.id) == p.id && '/' !in p.id
    && Solid(p.apiKey) && Solid(p.baseUrl) && p.models != []
    && (forall k :: 0 <= k < |p.models| ==> NormalModel(p.models[k]))
    && (forall j, k :: 0 <= j < k < |p.models| ==> p.models[j] != p.models[k])
  }

  predicate AllNormal(providers: seq<Provider>) {
    forall p :: p in providers ==> Normal(p)
  }

  lemma LowerKeepsSolid(s: string)
    requires Solid(s)
    ensures Solid(Lower(s))
  {
  }

  lemma {:induction false} NormalizedModels(models: seq<string>)
    requires NormalizeModels(models).Ok?
    ensures var m := NormalizeModels(models).value;
      && (forall k :: 0 <= k < |m| ==> NormalModel(m[k]))
      && (forall j, k :: 0 <= j < k < |m| ==> m[j] != m[k])
  {
    if models != [] {
      NormalizedModels(models[..|models| - 1]);
      StripIsSolid(models[|models| - 1]);
    }
  }

  /** Whatever the normalisers accept comes out normal. */
  lemma NormalizedIsNormal(id: string, apiKey: string, baseUrl: string, models: seq<string>)
    requires NormalizeFields(id, apiKey, baseUrl, models).Ok?
    ensures Normal(NormalizeFields(id, apiKey, baseUrl, models).value)
  {
    hide Strip, Solid;
    NormalizedModels(models);
    StripIsSolid(id);
    LowerKeepsSolid(Strip(id));
    StripIsSolid(apiKey);
    StripIsSolid(baseUrl);
  }

  lemma {:induction false} NormalModelsStay(models: seq<string>)
    requires forall k :: 0 <= k < |models| ==> NormalModel(models[k])
    requires forall j, k :: 0 <= j < k < |models| ==> models[j] != models[k]
    ensures NormalizeModels(models) == Ok(models)
  {
    if models != [] {
      var n := |models| - 1;
      NormalModelsStay(models[..n]);
      StripTrimmed(models[n]);
      assert models == models[..n] + [models[n]];
    }
  }

  lemma NormalFieldsStay(p: Provider)
    requires Normal(p)
    ensures NormalizeFields(p.id, p.apiKey, p.baseUrl, p.models) == Ok(p)
  {
    StripTrimmed(p.id);
    StripTrimmed(p.apiKey);
    StripTrimmed(p.baseUrl);
    NormalModelsStay(p.models);
  }

  /** Normalising a serialised row is the identity on normalised providers. */
  lemma RowRoundTrip(py: Py, p: Provider)
    requires Normal(p)
    ensures NormalizeRow(py, ToRow(p)) == Some(p)
  {
    hide NormalizeFields, Normal;
    NormalFieldsStay(p);
    RowFields(p);
    assert Texts(py, StrItems(p.models)) == p.models;
  }

  lemma RowFields(p: Provider)
    ensures var row := ToRow(p).members;
      && Field(row, "provider_id") == Str(p.id) && Field(row, "api_key") == Str(p.apiKey)
      && Field(row, "base_url") == Str(p.baseUrl) && Field(row, "models") == Arr(StrItems(p.models))
  {
    var row := ToRow(p).members;
    GetAt(row, 0);
    GetAt(row, 1);
    GetAt(row, 2);
    GetAt(row, 3);
  }

  lemma {:induction false} RowsRoundTrip(py: Py, providers: seq<Provider>)
    requires AllNormal(providers)
    ensures NormalizeRows(py, ToRows(providers)) == providers
    decreases |providers|
  {
    hide NormalizeRow, ToRow, Normal;
    if providers != [] {
      var n := |providers| - 1;
      assert providers == providers[..n] + [providers[n]];
      assert ToRows(providers)[..n] == ToRows(providers[..n]);
      RowsRoundTrip(py, providers[..n]);
      RowRoundTrip(py, providers[n]);
    }
  }

  /** Whatever the payload file holds, the providers read from it are normalised. */
  lemma {:induction false} StoredAreNormal(py: Py, rows: seq<Json>)
    ensures AllNormal(NormalizeRows(py, rows))
  {
    hide Normal, NormalizeFields;
    if rows != [] {
      StoredAreNormal(py, rows[..|rows| - 1]);
      if NormalizeRow(py, rows[|rows| - 1]).Some? {
        NormalRow(py, rows[|rows| - 1]);
      }
    }
  }

  lemma NormalRow(py: Py, raw: Json)
    requires NormalizeRow(py, raw).Some?
    ensures Normal(NormalizeRow(py, raw).value)
  {
    hide Normal, NormalizeFields;
    var row := raw.members;
    NormalizedIsNormal(TextOr(py, Field(row, "provider_id")), TextOr(py, Field(row, "api_key")),
                       TextOr(py, Field(row, "base_url")), Texts(py, Field(row, "models").items));
  }

  // ---------------------------------------------------------------------------------------
  // The store refines a map

  /** No provider stands twice, and no two share an id. */
  predicate UniqueIds(providers: seq<Provider>) {
    forall j, k :: 0 <= j < k < |providers| ==> providers[j].id != providers[k].id
  }

  function AsMap(providers: seq<Provider>): map<string, Provider> {
    if providers == [] then map[]
    else AsMap(providers[..|providers| - 1])[providers[|providers| - 1].id := providers[|providers| - 1]]
  }

  /** With unique ids the map holds exactly the providers. */
  lemma {:induction false} MapFacts(providers: seq<Provider>)
    requires UniqueIds(providers)
    ensures forall p :: p in providers ==> p.id in AsMap(providers) && AsMap(providers)[p.id] == p
    ensures forall id :: id in AsMap(providers) ==> AsMap(providers)[id] in providers && AsMap(providers)[id].id == id
    decreases |providers|
  {
    if providers != [] {
      var n := |providers| - 1;
      assert providers == providers[..n] + [providers[n]];
      MapFacts(providers[..n]);
    }
  }

  /** ... and is the only map that does. */
  lemma MapIsOnlyOne(providers: seq<Provider>, m: map<string, Provider>)
    requires UniqueIds(providers)
    requires forall p :: p in providers ==> p.id in m && m[p.id] == p
    requires forall id :: id in m ==> m[id] in providers && m[id].id == id
    ensures AsMap(providers) == m
  {
    hide AsMap;
    MapFacts(providers);
    var n := AsMap(providers);
    forall id ensures id in n <==> id in m {
      if id in n {
        assert n[id] in providers;
      }
      if id in m {
        assert m[id] in providers;
      }
    }
    forall id | id in m ensures n[id] == m[id] {
      assert m[id] in providers;
    }
  }

  lemma MapByElements(a: seq<Provider>, b: seq<Provider>)
    requires UniqueIds(a) && UniqueIds(b) && forall p :: p in a <==> p in b
    ensures AsMap(a) == AsMap(b)
  {
    MapFacts(b);
    MapIsOnlyOne(a, AsMap(b));
  }

  lemma SortKeepsUnique(rows: seq<Provider>)
    requires UniqueIds(rows)
    ensures Sorted(ById, Sort(ById, rows)) && UniqueIds(Sort(ById, rows)) && AsMap(Sort(ById, rows)) == AsMap(rows)
    ensures forall p :: p in Sort(ById, rows) <==> p in rows
  {
    ByIdIsOrder();
    hide TotalOrder;
    var sorted := Sort(ById, rows);
    SortFacts(ById, rows);
    SortKeepsElements(ById, rows);
    SortKeepsDistinct(ById, rows);
    forall j, k | 0 <= j < k < |sorted| ensures sorted[j].id != sorted[k].id {
      assert sorted[j] in rows && sorted[k] in rows && sorted[j] != sorted[k];
    }
    MapByElements(sorted, rows);
  }

  /** Sorted, id-unique and normalised. */
  predicate Tidy(providers: seq<Provider>) {
    Sorted(ById, providers) && UniqueIds(providers) && AllNormal(providers)
  }

  lemma ReplaceFacts(providers: seq<Provider>, p: Provider)
    requires UniqueIds(providers)
    ensures var r := ReplaceOrAppend(providers, p);
      UniqueIds(r) && AsMap(r) == AsMap(providers)[p.id := p] && forall x :: x in r ==> x == p || x in providers
  {
    hide AsMap, ReplaceOrAppend;
    var r := ReplaceOrAppend(providers, p);
    ReplacedElements(providers, p);
    MapFacts(providers);
    var m := AsMap(providers)[p.id := p];
    forall id | id in m ensures m[id] in r && m[id].id == id {
      if id != p.id {
        assert AsMap(providers)[id] in providers;
      }
    }
    MapIsOnlyOne(r, m);
  }

  lemma ReplacedElements(providers: seq<Provider>, p: Provider)
    requires UniqueIds(providers)
    ensures var r := ReplaceOrAppend(providers, p);
      UniqueIds(r) && forall x :: x in r <==> x == p || (x in providers && x.id != p.id)
  {
    var r := ReplaceOrAppend(providers, p);
    forall x | x == p || (x in providers && x.id != p.id) ensures x in r {
      if x != p {
        var k :| 0 <= k < |providers| && providers[k] == x;
        assert r[k] == x;
      } else if HasId(providers, p.id) {
        var k :| 0 <= k < |providers| && providers[k].id == p.id;
        assert r[k] == p;
      } else {
        assert r[|r| - 1] == p;
      }
    }
    if !HasId(providers, p.id) {
      assert forall k :: 0 <= k < |providers| ==> providers[k].id != p.id && r[k] == providers[k];
    }
  }

  /** An upsert is a map update. */
  lemma UpsertIsMapUpdate(providers: seq<Provider>, p: Provider)
    requires UniqueIds(providers) && AllNormal(providers) && Normal(p)
    ensures Tidy(Upserted(providers, p)) && AsMap(Upserted(providers, p)) == AsMap(providers)[p.id := p]
  {
    hide Normal;
    var r := ReplaceOrAppend(providers, p);
    ReplaceFacts(providers, p);
    SortKeepsUnique(r);
  }

  lemma {:induction false} WithoutElements(providers: seq<Provider>, id: string)
    ensures forall x :: x in Without(providers, id) <==> x in providers && x.id != id
    decreases |providers|
  {
    if providers != [] {
      var n := |providers| - 1;
      WithoutElements(providers[..n], id);
      assert providers == providers[..n] + [providers[n]];
    }
  }

  lemma {:induction false} WithoutKeepsTidy(providers: seq<Provider>, id: string)
    requires Sorted(ById, providers) && UniqueIds(providers)
    ensures Sorted(ById, Without(providers, id)) && UniqueIds(Without(providers, id))
    decreases |providers|
  {
    if providers != [] {
      var n := |providers| - 1;
      var most, last := providers[..n], providers[n];
      MostIsTidy(providers);
      hide Sorted, UniqueIds, ById;
      WithoutKeepsTidy(most, id);
      WithoutElements(most, id);
      if last.id != id {
        TidySnoc(Without(most, id), last);
      }
    }
  }

  lemma MostIsTidy(providers: seq<Provider>)
    requires providers != [] && Sorted(ById, providers) && UniqueIds(providers)
    ensures var n := |providers| - 1;
      && Sorted(ById, providers[..n]) && UniqueIds(providers[..n])
      && forall p :: p in providers[..n] ==> ById(p, providers[n]) && p.id != providers[n].id
  {
    hide ById;
  }

  lemma TidySnoc(providers: seq<Provider>, last: Provider)
    requires Sorted(ById, providers) && UniqueIds(providers)
    requires forall p :: p in providers ==> ById(p, last) && p.id != last.id
    ensures Sorted(ById, providers + [last]) && UniqueIds(providers + [last])
  {
    hide ById;
  }

  /** A delete is a map removal. */
  lemma DeleteIsMapRemoval(providers: seq<Provider>, id: string)
    requires Tidy(providers)
    ensures Tidy(Without(providers, id)) && AsMap(Without(providers, id)) == AsMap(providers) - {id}
    ensures HasId(providers, id) <==> id in AsMap(providers)
  {
    hide Normal, AsMap, Without, HasId;
    var r := Without(providers, id);
    WithoutElements(providers, id);
    WithoutKeepsTidy(providers, id);
    MapFacts(providers);
    MapIsOnlyOne(r, AsMap(providers) - {id});
    IdInMap(providers, id);
  }

  lemma IdInMap(providers: seq<Provider>, id: string)
    requires UniqueIds(providers)
    ensures HasId(providers, id) <==> id in AsMap(providers)
  {
    hide AsMap;
    MapFacts(providers);
    if HasId(providers, id) {
      var k :| 0 <= k < |providers| && providers[k].id == id;
      assert providers[k] in providers;
    }
    if id in AsMap(providers) {
      var k :| 0 <= k < |providers| && providers[k] == AsMap(providers)[id];
    }
  }

  // ---------------------------------------------------------------------------------------
  // Runs of the store

  datatype Operation =
    | Upsert(id: string, apiKey: string, baseUrl: string, models: seq<string>)
    | Delete(id: string)

  /** The stored rows after an operation, as the two methods leave them; a refused argument
      leaves them alone. */
  function Applied(py: Py, stored: Json, op: Operation): Json {
    var providers := Providers(py, stored);
    match op
    case Upsert(id, apiKey, baseUrl, models) =>
      (match NormalizeFields(id, apiKey, baseUrl, models)
       case Ok(p) => Arr(ToRows(Upserted(providers, p)))
       case ValueError => stored)
    case Delete(id) =>
      (match NormalizeId(id)
       case Ok(n) => if HasId(providers, n) then Arr(ToRows(Without(providers, n))) else stored
       case ValueError => stored)
  }

  /** The same operation on a plain map. */
  function MapApplied(m: map<string, Provider>, op: Operation): map<string, Provider> {
    match op
    case Upsert(id, apiKey, baseUrl, models) =>
      (match NormalizeFields(id, apiKey, baseUrl, models)
       case Ok(p) => m[p.id := p]
       case ValueError => m)
    case Delete(id) =>
      (match NormalizeId(id)
       case Ok(n) => m - {n}
       case ValueError => m)
  }

  function StoredAfter(py: Py, ops: seq<Operation>): Json {
    if ops == [] then Arr([]) else Applied(py, StoredAfter(py, ops[..|ops| - 1]), ops[|ops| - 1])
  }

  function MapAfter(ops: seq<Operation>): map<string, Provider> {
    if ops == [] then map[] else MapApplied(MapAfter(ops[..|ops| - 1]), ops[|ops| - 1])
  }

  lemma StepRefinesMap(py: Py, stored: Json, op: Operation, m: map<string, Provider>)
    requires Tidy(Providers(py, stored)) && AsMap(Providers(py, stored)) == m
    ensures Tidy(Providers(py, Applied(py, stored, op))) && AsMap(Providers(py, Applied(py, stored, op))) == MapApplied(m, op)
  {
    hide Normal, AsMap, Upserted, Without, NormalizeFields, NormalizeId, Sorted, UniqueIds, NormalizeRows, ToRows, HasId;
    var providers := Providers(py, stored);
    match op {
      case Upsert(id, apiKey, baseUrl, models) =>
        if NormalizeFields(id, apiKey, baseUrl, models).Ok? {
          var p := NormalizeFields(id, apiKey, baseUrl, models).value;
          NormalizedIsNormal(id, apiKey, baseUrl, models);
          UpsertIsMapUpdate(providers, p);
          RowsRoundTrip(py, Upserted(providers, p));
        }
      case Delete(id) =>
        if NormalizeId(id).Ok? {
          var n := NormalizeId(id).value;
          DeleteIsMapRemoval(providers, n);
          RowsRoundTrip(py, Without(providers, n));
        }
    }
  }

  /** Over any sequence of upserts and deletes from an empty store, the stored rows read back
      as sorted, id-unique, normalised providers, and hold what a map would. */
  lemma {:induction false} StoreRefinesMap(py: Py, ops: seq<Operation>)
    ensures Tidy(Providers(py, StoredAfter(py, ops))) && AsMap(Providers(py, StoredAfter(py, ops))) == MapAfter(ops)
    decreases |ops|
  {
    hide Applied, MapApplied;
    if ops != [] {
      StoreRefinesMap(py, ops[..|ops| - 1]);
      StepRefinesMap(py, StoredAfter(py, ops[..|ops| - 1]), ops[|ops| - 1], MapAfter(ops[..|ops| - 1]));
    }
  }

  /** Listing a store after any run lists exactly the providers of the map, by id. */
  lemma ListingIsTheMap(py: Py, ops: seq<Operation>)
    ensures var listed := Sort(ById, Providers(py, StoredAfter(py, ops)));
      Tidy(listed) && AsMap(listed) == MapAfter(ops)
  {
    hide Normal, AsMap, Sort;
    var providers := Providers(py, StoredAfter(py, ops));
    StoreRefinesMap(py, ops);
    SortKeepsUnique(providers);
  }

  // ---------------------------------------------------------------------------------------
  // Model specs resolve

  /** The provider has the model, under its name or without the `[1m]` in it. */
  predicate Offers(p: Provider, model: string) {
    model in p.models || (StripSuffix(model) != Strip(model) && StripSuffix(model) in p.models)
  }

  lemma {:induction false} FirstMatchOfUnique(providers: seq<Provider>, p: Provider, model: string)
    requires UniqueIds(providers) && p in providers && Offers(p, model)
    ensures FirstMatch(providers, p.id, model) == Some(Resolved(p.id, StripSuffix(model), p.apiKey, p.baseUrl))
  {
    hide StripSuffix, Strip;
    if providers[0] != p {
      var k :| 0 <= k < |providers| && providers[k] == p;
      assert providers[1..][k - 1] == p;
      FirstMatchOfUnique(providers[1..], p, model);
    }
  }

  lemma {:induction false} FindsSlash(id: string, rest: string, i: nat)
    requires '/' !in id && i <= |id|
    ensures FindSlash(id + "/" + rest, i) == Some(|id|)
    decreases |id| - i
  {
    var s := id + "/" + rest;
    if i < |id| {
      assert s[i] == id[i] && id[i] in id;
      FindsSlash(id, rest, i + 1);
    }
  }

  /** A provider's spec for one of its models resolves to that provider's key and address, with
      every `[1m]` gone from the model name. */
  lemma SpecResolves(providers: seq<Provider>, p: Provider, k: nat)
    requires UniqueIds(providers) && p in providers && Normal(p) && k < |p.models|
    ensures Resolve(providers, p.id + "/" + p.models[k])
      == Ok(Some(Resolved(p.id, StripSuffix(p.models[k]), p.apiKey, p.baseUrl)))
  {
    hide StripSuffix, Strip, UniqueIds;
    var m := p.models[k];
    var s := p.id + "/" + m;
    StripTrimmed(s);
    FindsSlash(p.id, m, 0);
    assert s[..|p.id|] == p.id && s[|p.id| + 1..] == m;
    StripTrimmed(p.id);
    StripTrimmed(m);
    FirstMatchOfUnique(providers, p, m);
  }

  lemma {:induction false} RemovesSuffix(m: string, i: nat)
    requires !Contains(m, "[1m]") && i <= |m|
    ensures RemoveAll(m + "[1m]", i) == m[i..]
    decreases |m| - i
  {
    var s := m + "[1m]";
    if i < |m| {
      if OccursAt(s, i, "[1m]") {
        NoOverlap(m, i);
      }
      RemovesSuffix(m, i + 1);
      assert m[i..] == [m[i]] + m[i + 1..];
    } else {
      assert s[i..i + 4] == "[1m]";
    }
  }

  /** The marker cannot begin inside `m` and end in a marker behind it. */
  lemma NoOverlap(m: string, i: nat)
    requires i < |m| && OccursAt(m + "[1m]", i, "[1m]")
    ensures OccursAt(m, i, "[1m]")
  {
    var s := m + "[1m]";
    assert s[|m|] == '[';
    assert s[i..i + 4][1] == s[i + 1] && s[i..i + 4][2] == s[i + 2] && s[i..i + 4][3] == s[i + 3];
    assert i + 4 <= |m|;
    assert m[i..i + 4] == s[i..i + 4];
  }

  /** A spec that asks for a model with the `[1m]` marker resolves to the provider's model of
      that name without it, whether or not the provider lists the marked name too. */
  lemma SuffixedSpecResolves(providers: seq<Provider>, p: Provider, k: nat)
    requires UniqueIds(providers) && p in providers && Normal(p) && k < |p.models| && !Contains(p.models[k], "[1m]")
    ensures Resolve(providers, p.id + "/" + (p.models[k] + "[1m]"))
      == Ok(Some(Resolved(p.id, p.models[k], p.apiKey, p.baseUrl)))
  {
    hide Strip, UniqueIds, RemoveAll, FirstMatch;
    var m, marked := p.models[k], p.models[k] + "[1m]";
    var s := p.id + "/" + marked;
    StripTrimmed(s);
    FindsSlash(p.id, marked, 0);
    assert s[..|p.id|] == p.id && s[|p.id| + 1..] == marked;
    StripTrimmed(p.id);
    StripTrimmed(marked);
    StripTrimmed(m);
    RemovesSuffix(m, 0);
    assert '/' !in marked;
    assert StripSuffix(marked) == m && m in p.models;
    FirstMatchOfUnique(providers, p, marked);
  }

  lemma {:induction false} SpecComesFrom(providers: seq<Provider>, spec: string) returns (p: Provider, k: nat)
    requires spec in AllSpecs(providers)
    ensures p in providers && k < |p.models| && spec == p.id + "/" + p.models[k]
    decreases |providers|
  {
    var n := |providers| - 1;
    if spec in AllSpecs(providers[..n]) {
      p, k := SpecComesFrom(providers[..n], spec);
    } else {
      p := providers[n];
      k :| 0 <= k < |SpecsOf(p)| && SpecsOf(p)[k] == spec;
    }
  }

  /** Every listed spec, after any run, resolves, and to the provider and model it was made
      from. */
  lemma ListedSpecsResolve(py: Py, ops: seq<Operation>, spec: string) returns (p: Provider, k: nat)
    requires spec in Sort(Leq, AllSpecs(Sort(ById, Providers(py, StoredAfter(py, ops)))))
    ensures k < |p.models| && spec == p.id + "/" + p.models[k]
    ensures p.id in MapAfter(ops) && MapAfter(ops)[p.id] == p
    ensures Resolve(Sort(ById, Providers(py, StoredAfter(py, ops))), spec)
      == Ok(Some(Resolved(p.id, StripSuffix(p.models[k]), p.apiKey, p.baseUrl)))
  {
    hide Normal, AsMap, Sort, AllSpecs, Resolve;
    var listed := Sort(ById, Providers(py, StoredAfter(py, ops)));
    ListingIsTheMap(py, ops);
    LeqIsOrder();
    SortKeepsElements(Leq, AllSpecs(listed));
    p, k := SpecComesFrom(listed, spec);
    MapFacts(listed);
    SpecResolves(listed, p, k);
  }

  // ---------------------------------------------------------------------------------------
  // Which fields are accepted, and as what

  /** `raw` is `core` with spaces around it, and `core` is `id` in any case. */
  ghost predicate NamesId(raw: string, id: string) {
    id != "" && '/' !in id && exists core :: Trimmed(core) && Padded(raw, core) && SameLetters(core, id)
  }

  lemma IdExactly(raw: string, id: string)
    ensures NormalizeId(raw) == Ok(id) <==> NamesId(raw, id)
  {
    hide Strip, Padded, Trimmed, Lower, SameLetters;
    StripExactly(raw, Strip(raw));
    LowerExactly(Strip(raw), id);
    if NamesId(raw, id) {
      var core :| Trimmed(core) && Padded(raw, core) && SameLetters(core, id);
      StripExactly(raw, core);
    }
  }

  ghost predicate NamesModel(raw: string, model: string) {
    Solid(model) && '/' !in model && Padded(raw, model)
  }

  lemma ModelExactly(raw: string, model: string)
    ensures NormalizeModel(raw) == Ok(model) <==> NamesModel(raw, model)
  {
    hide Strip, Padded;
    StripExactly(raw, model);
  }

  /** The distinct ones among the names. */
  function Distincts(names: seq<string>): seq<string> {
    if names == [] then []
    else
      var most, last := names[..|names| - 1], names[|names| - 1];
      Distincts(most) + if last in most then [] else [last]
  }

  /** In front of the first appearance of one name another has not appeared. */
  ghost predicate AppearsFirst(names: seq<string>, x: string, y: string) {
    exists p :: 0 <= p < |names| && names[p] == x && y !in names[..p]
  }

  lemma AppearsFirstStays(names: seq<string>, more: seq<string>, x: string, y: string)
    requires AppearsFirst(names, x, y)
    ensures AppearsFirst(names + more, x, y)
  {
    var p :| 0 <= p < |names| && names[p] == x && y !in names[..p];
    assert (names + more)[..p] == names[..p] && (names + more)[p] == x;
  }

  lemma NewAppearsLast(names: seq<string>, x: string, y: string)
    requires x in names && y !in names
    ensures AppearsFirst(names, x, y)
  {
    var p :| 0 <= p < |names| && names[p] == x;
    assert forall z :: z in names[..p] ==> z in names;
  }

  /** Each once, in the order in which they first appear. */
  lemma {:induction false} DistinctsFacts(names: seq<string>)
    ensures forall x :: x in Distincts(names) <==> x in names
    ensures Distinct(Distincts(names))
    ensures forall i, j :: 0 <= i < j < |Distincts(names)| ==> AppearsFirst(names, Distincts(names)[i], Distincts(names)[j])
    decreases |names|
  {
    hide AppearsFirst;
    if names != [] {
      var most, last := names[..|names| - 1], names[|names| - 1];
      assert names == most + [last];
      DistinctsFacts(most);
      var d, r := Distincts(most), Distincts(names);
      forall i, j | 0 <= i < j < |r| ensures AppearsFirst(names, r[i], r[j]) {
        if j < |d| {
          AppearsFirstStays(most, [last], r[i], r[j]);
        } else {
          assert d[i] in most;
          NewAppearsLast(most, r[i], last);
          AppearsFirstStays(most, [last], r[i], last);
        }
      }
    }
  }

  ghost predicate NamesModels(raw: seq<string>, names: seq<string>) {
    |names| == |raw| && forall k :: 0 <= k < |raw| ==> NamesModel(raw[k], names[k])
  }

  lemma {:induction false} ModelsAccepted(raw: seq<string>) returns (names: seq<string>)
    requires NormalizeModels(raw).Ok?
    ensures NamesModels(raw, names) && NormalizeModels(raw).value == Distincts(names)
  {
    hide NamesModel, NormalizeModel;
    if raw == [] {
      names := [];
    } else {
      var most, last := raw[..|raw| - 1], raw[|raw| - 1];
      var front := ModelsAccepted(most);
      var name := NormalizeModel(last).value;
      ModelExactly(last, name);
      DistinctsFacts(front);
      names := front + [name];
      assert names[..|names| - 1] == front;
    }
  }

  lemma {:induction false} ModelsNamed(raw: seq<string>, names: seq<string>)
    requires NamesModels(raw, names)
    ensures NormalizeModels(raw) == Ok(Distincts(names))
    decreases |raw|
  {
    hide NamesModel, NormalizeModel;
    if raw != [] {
      var n := |raw| - 1;
      ModelsNamed(raw[..n], names[..n]);
      ModelExactly(raw[n], names[n]);
      DistinctsFacts(names[..n]);
      assert Distincts(names[..n]) + [] == Distincts(names[..n]);
    }
  }

  /** A list of models is accepted exactly if each is, as the distinct ones in the order of their
      first appearance. */
  lemma ModelsExactly(raw: seq<string>, models: seq<string>)
    ensures NormalizeModels(raw) == Ok(models) <==> exists names :: NamesModels(raw, names) && models == Distincts(names)
  {
    hide NormalizeModels, NamesModels, Distincts;
    if NormalizeModels(raw) == Ok(models) {
      var names := ModelsAccepted(raw);
    }
    if names :| NamesModels(raw, names) && models == Distincts(names) {
      ModelsNamed(raw, names);
    }
  }

  /** Which raw fields are accepted, and as what provider; all others are refused. */
  lemma FieldsExactly(id: string, apiKey: string, baseUrl: string, models: seq<string>, p: Provider)
    ensures NormalizeFields(id, apiKey, baseUrl, models) == Ok(p) <==>
      && NamesId(id, p.id) && Solid(p.apiKey) && Padded(apiKey, p.apiKey) && Solid(p.baseUrl) && Padded(baseUrl, p.baseUrl)
      && p.models != [] && exists names :: NamesModels(models, names) && p.models == Distincts(names)
  {
    hide NormalizeId, NormalizeModels, NamesId, NamesModels, Distincts, Strip, Padded;
    IdExactly(id, p.id);
    ModelsExactly(models, p.models);
    StripExactly(apiKey, p.apiKey);
    StripExactly(baseUrl, p.baseUrl);
  }

  /** What a stored value stands for as a text: nothing and what counts as false are no text. */
  predicate StandsFor(py: Py, v: Json, text: string) {
    if v.Str? then text == v.s
    else if v.Null? || !py.truthy(v) then text == ""
    else text == py.str(v)
  }

  /** Which stored rows are readable, and as what provider. */
  lemma RowExactly(py: Py, raw: Json, p: Provider)
    ensures NormalizeRow(py, raw) == Some(p) <==>
      raw.Obj? && Field(raw.members, "models").Arr?
      && exists id, apiKey, baseUrl, models ::
           && StandsFor(py, Field(raw.members, "provider_id"), id) && StandsFor(py, Field(raw.members, "api_key"), apiKey)
           && StandsFor(py, Field(raw.members, "base_url"), baseUrl)
           && models == Texts(py, Field(raw.members, "models").items)
           && NormalizeFields(id, apiKey, baseUrl, models) == Ok(p)
  {
    hide NormalizeFields, Field, Texts;
    if raw.Obj? {
      assert StandsFor(py, Field(raw.members, "provider_id"), TextOr(py, Field(raw.members, "provider_id")));
      assert StandsFor(py, Field(raw.members, "api_key"), TextOr(py, Field(raw.members, "api_key")));
      assert StandsFor(py, Field(raw.members, "base_url"), TextOr(py, Field(raw.members, "base_url")));
    }
  }

  const MARKER := "[1m]"

  lemma MarkerAt(s: string, i: nat)
    ensures OccursAt(s, i, MARKER) ==> i + 4 <= |s| && s[i] == '[' && s[i + 1] == '1' && s[i + 2] == 'm' && s[i + 3] == ']'
  {
    if OccursAt(s, i, MARKER) {
      var t := s[i..i + 4];
      assert t[0] == s[i] && t[1] == s[i + 1] && t[2] == s[i + 2] && t[3] == s[i + 3];
    }
  }

  lemma NoMarkerInTail(piece: string)
    requires piece != "" && !Contains(piece, MARKER)
    ensures !Contains(piece[1..], MARKER)
  {
    forall k: nat ensures !OccursAt(piece[1..], k, MARKER) {
      if OccursAt(piece[1..], k, MARKER) {
        assert piece[k + 1..k + 5] == piece[1..][k..k + 4];
        assert OccursAt(piece, k + 1, MARKER);
      }
    }
  }

  /** No marker begins in a piece that has none, in front of a marker or the end. */
  lemma NoMarkerAt(s: string, i: nat, piece: string)
    requires OccursAt(s, i, piece) && piece != "" && !Contains(piece, MARKER)
    requires i + |piece| == |s| || OccursAt(s, i + |piece|, MARKER)
    ensures !OccursAt(s, i, MARKER)
  {
    MarkerAt(s, i);
    MarkerAt(s, i + |piece|);
    if |piece| >= 4 {
      SliceOfSlice(s, i, i + |piece|, 0, 4);
      assert !OccursAt(piece, 0, MARKER);
    }
  }

  lemma {:induction false} PieceStays(s: string, i: nat, piece: string)
    requires OccursAt(s, i, piece) && !Contains(piece, MARKER)
    requires i + |piece| == |s| || OccursAt(s, i + |piece|, MARKER)
    ensures RemoveAll(s, i) == piece + RemoveAll(s, i + |piece|)
    decreases |piece|
  {
    hide OccursAt, Contains;
    if piece != "" {
      assert piece == [piece[0]] + piece[1..];
      OccursAtSplit(s, i, [piece[0]], piece[1..]);
      OccursChar(s, i, piece, 0);
      NoMarkerAt(s, i, piece);
      NoMarkerInTail(piece);
      PieceStays(s, i + 1, piece[1..]);
      assert RemoveAll(s, i) == [s[i]] + RemoveAll(s, i + 1);
    }
  }

  /** Taking out the markers leaves what stands between them. */
  lemma {:induction false} MarkersGo(s: string, i: nat, pieces: seq<string>)
    requires pieces != [] && OccursAt(s, i, Join(pieces, MARKER)) && i + |Join(pieces, MARKER)| == |s|
    requires forall k :: 0 <= k < |pieces| ==> !Contains(pieces[k], MARKER)
    ensures RemoveAll(s, i) == Concat(pieces)
    decreases |pieces|
  {
    hide OccursAt, Contains;
    var first := pieces[0];
    if |pieces| == 1 {
      PieceStays(s, i, first);
      assert pieces[1..] == [] && Concat(pieces) == first + "";
    } else {
      var rest := Join(pieces[1..], MARKER);
      assert Join(pieces, MARKER) == first + (MARKER + rest);
      OccursAtSplit(s, i, first, MARKER + rest);
      OccursAtSplit(s, i + |first|, MARKER, rest);
      PieceStays(s, i, first);
      MarkersGo(s, i + |first| + 4, pieces[1..]);
    }
  }

  // ---------------------------------------------------------------------------------------
  // Queries against the map

  function FoundIn(m: map<string, Provider>, id: string, model: string): Option<Resolved> {
    if id in m && Offers(m[id], model) then Some(Resolved(id, StripSuffix(model), m[id].apiKey, m[id].baseUrl)) else None
  }

  /** What a spec should resolve to, given the providers by id. */
  function ResolveIn(m: map<string, Provider>, spec: string): Outcome<Option<Resolved>> {
    var s := Strip(spec);
    match FindSlash(s, 0)
    case None => Ok(None)
    case Some(k) =>
      match (NormalizeId(s[..k]), NormalizeModel(s[k + 1..]))
      case (Ok(id), Ok(model)) => Ok(FoundIn(m, id, model))
      case _ => ValueError
  }

  lemma {:induction false} NoMatch(providers: seq<Provider>, id: string, model: string)
    requires forall p :: p in providers && p.id == id ==> !Offers(p, model)
    ensures FirstMatch(providers, id, model) == None
  {
    hide StripSuffix, Strip;
    if providers != [] {
      assert providers[0] in providers;
      NoMatch(providers[1..], id, model);
    }
  }

  lemma FirstMatchIsLookup(providers: seq<Provider>, id: string, model: string)
    requires UniqueIds(providers)
    ensures FirstMatch(providers, id, model) == FoundIn(AsMap(providers), id, model)
  {
    hide FirstMatch, Offers, AsMap, UniqueIds;
    var m := AsMap(providers);
    MapFacts(providers);
    if id in m && Offers(m[id], model) {
      FirstMatchOfUnique(providers, m[id], model);
    } else {
      NoMatch(providers, id, model);
    }
  }

  /** After any run, every string resolves as it would in the map: to a provider that the map
      holds, and to nothing once the provider is deleted, replaced without the model, or was never
      there. */
  lemma ResolvingIsTheMap(py: Py, ops: seq<Operation>, spec: string)
    ensures Resolve(Sort(ById, Providers(py, StoredAfter(py, ops))), spec) == ResolveIn(MapAfter(ops), spec)
  {
    hide Sort, AsMap, FirstMatch, FoundIn, NormalizeId, NormalizeModel, Strip, UniqueIds;
    var listed := Sort(ById, Providers(py, StoredAfter(py, ops)));
    ListingIsTheMap(py, ops);
    assert UniqueIds(listed);
    forall id, model ensures FirstMatch(listed, id, model) == FoundIn(MapAfter(ops), id, model) {
      FirstMatchIsLookup(listed, id, model);
    }
  }

  ghost predicate SpecIn(m: map<string, Provider>, spec: string) {
    exists id, k :: id in m && 0 <= k < |m[id].models| && spec == id + "/" + m[id].models[k]
  }

  lemma {:induction false} SpecIsListed(providers: seq<Provider>, p: Provider, k: nat)
    requires p in providers && k < |p.models|
    ensures p.id + "/" + p.models[k] in AllSpecs(providers)
    decreases |providers|
  {
    var n := |providers| - 1;
    if providers[n] == p {
      assert SpecsOf(p)[k] == p.id + "/" + p.models[k];
    } else {
      assert providers == providers[..n] + [providers[n]];
      SpecIsListed(providers[..n], p, k);
    }
  }

  /** After any run the specs listed are exactly those of the map's providers, in order. */
  lemma SpecsAreTheMap(py: Py, ops: seq<Operation>)
    ensures var specs := Sort(Leq, AllSpecs(Sort(ById, Providers(py, StoredAfter(py, ops)))));
      Sorted(Leq, specs) && forall spec :: spec in specs <==> SpecIn(MapAfter(ops), spec)
  {
    hide Sort, AsMap, AllSpecs, UniqueIds, Normal, Sorted;
    var listed := Sort(ById, Providers(py, StoredAfter(py, ops)));
    var m := MapAfter(ops);
    ListingIsTheMap(py, ops);
    MapFacts(listed);
    LeqIsOrder();
    SortFacts(Leq, AllSpecs(listed));
    SortKeepsElements(Leq, AllSpecs(listed));
    forall spec ensures spec in AllSpecs(listed) <==> SpecIn(m, spec) {
      if spec in AllSpecs(listed) {
        var p, k := SpecComesFrom(listed, spec);
        assert p.id in m && m[p.id] == p;
      }
      if SpecIn(m, spec) {
        var id, k :| id in m && 0 <= k < |m[id].models| && spec == id + "/" + m[id].models[k];
        SpecIsListed(listed, m[id], k);
      }
    }
  }
}
