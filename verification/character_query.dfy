/** How `fetchCharactersFromApi` turns a character filter into the request URL:
    each truthy field becomes one query parameter, in the fixed order
    page, name, status, species, type, gender, and the `?` is added only when
    there is at least one parameter. */
module CharacterQuery {
  import opened Wrappers
  import NumberText
  import JsValue
  import opened FormUrlEncoded

  /** `filter.page`: declared a number, but a query string delivers it as text. */
  datatype PageValue = PageNumber(n: int) | PageText(s: string)

  /** The optional filter fields; `kind` is the field the upstream API calls `type`. */
  datatype Filter = Filter(
    page: Option<PageValue>,
    name: Option<string>,
    status: Option<string>,
    species: Option<string>,
    kind: Option<string>,
    gender: Option<string>)

  /** The default argument `{}`. */
  const NoFilter: Filter := Filter(None, None, None, None, None, None)

  /** The six filter fields, each sent under its own parameter name. */
  datatype Field = Page | Name | Status | Species | Type | Gender

  /** The fields in the order the source appends them. */
  const FieldOrder: seq<Field> := [Page, Name, Status, Species, Type, Gender]

  /** The query parameter name of a field. */
  function Key(fld: Field): string {
    match fld
    case Page => "page"
    case Name => "name"
    case Status => "status"
    case Species => "species"
    case Type => "type"
    case Gender => "gender"
  }

  /** The field a parameter name belongs to, if any. */
  function FieldOf(key: string): (r: Option<Field>)
    ensures r.Some? ==> Key(r.value) == key
  {
    if key == "page" then Some(Page)
    else if key == "name" then Some(Name)
    else if key == "status" then Some(Status)
    else if key == "species" then Some(Species)
    else if key == "type" then Some(Type)
    else if key == "gender" then Some(Gender)
    else None
  }

  /** Position of a field in `FieldOrder`. */
  function Rank(fld: Field): nat {
    match fld
    case Page => 0
    case Name => 1
    case Status => 2
    case Species => 3
    case Type => 4
    case Gender => 5
  }

  /** `String(filter.page)` when `filter.page` is truthy (a non-zero number or a non-empty text).
      The guards spell out `JsValue.Truthy` for the two shapes a page can take;
      `ParamsFollowTruthiness` proves that they agree with it. */
  function PageParam(p: Option<PageValue>): Option<string> {
    match p
    case None => None
    case Some(PageNumber(n)) => if n != 0 then Some(NumberText.IntToText(n)) else None
    case Some(PageText(s)) => if s != "" then Some(s) else None
  }

  /** A text field when it is truthy (present and non-empty). */
  function TextParam(v: Option<string>): Option<string> {
    if v.Some? && v.value != "" then v else None
  }

  /** The filter's guards are JavaScript truthiness: a page or text is sent exactly
      when `JsValue.Truthy` holds of it. */
  lemma ParamsFollowTruthiness(n: int, s: string)
    ensures PageParam(Some(PageNumber(n))).Some? <==> JsValue.Truthy(JsValue.Num(n))
    ensures PageParam(Some(PageText(s))).Some? <==> JsValue.Truthy(JsValue.Str(s))
    ensures TextParam(Some(s)).Some? <==> JsValue.Truthy(JsValue.Str(s))
  {
  }

  /** The value sent for a field; `None` when the field is absent or falsy. */
  function Param(f: Filter, fld: Field): Option<string> {
    match fld
    case Page => PageParam(f.page)
    case Name => TextParam(f.name)
    case Status => TextParam(f.status)
    case Species => TextParam(f.species)
    case Type => TextParam(f.kind)
    case Gender => TextParam(f.gender)
  }

  /** No field of the filter is truthy. */
  predicate IsBlank(f: Filter) {
    forall fld: Field :: Param(f, fld).None?
  }

  /** `queryParams.append(key, v)` guarded by the truthiness test. */
  function AppendIf(q: seq<Pair>, key: string, v: Option<string>): seq<Pair> {
    if v.Some? then q + [(key, v.value)] else q
  }

  /** The contents of `queryParams` after the guarded appends, one per field in
      `FieldOrder`: exactly the truthy filter fields, each under its own name with
      the text sent for it, each at most once, in the order page, name, status,
      species, type, gender; empty exactly when no field is truthy. */
  function QueryPairs(f: Filter): (q: seq<Pair>)
    ensures NamesSetFields(f, q)
    ensures CarriesSetFields(f, q)
    ensures NamesInFieldOrder(q)
    ensures |q| == 0 <==> IsBlank(f)
  {
    var q := AppendAll([], f, FieldOrder);
    var s := Select(f, FieldOrder);
    AppendAllSelect([], f, FieldOrder);
    assert q == Named(s);
    SelectSpec(f, FieldOrder);
    NamedContents(f, s);
    q
  }

  /** The fold is the source's six guarded appends, written out in order. */
  lemma QueryPairsUnfolded(f: Filter)
    ensures QueryPairs(f) ==
      AppendIf(AppendIf(AppendIf(AppendIf(AppendIf(AppendIf([],
        "page", PageParam(f.page)),
        "name", TextParam(f.name)),
        "status", TextParam(f.status)),
        "species", TextParam(f.species)),
        "type", TextParam(f.kind)),
        "gender", TextParam(f.gender))
  {
  }

  /** Reference definition: walk a list of fields and keep, in list order, those
      the filter sets, each with the value sent for it. */
  function Select(f: Filter, flds: seq<Field>): seq<(Field, string)>
    decreases |flds|
  {
    if |flds| == 0 then []
    else
      var rest := Select(f, flds[1..]);
      var v := Param(f, flds[0]);
      if v.Some? then [(flds[0], v.value)] + rest else rest
  }

  /** Fields listed in strictly increasing rank. */
  predicate RankOrdered(flds: seq<Field>) {
    forall i, j :: 0 <= i < j < |flds| ==> Rank(flds[i]) < Rank(flds[j])
  }

  /** Every selected pair names a field of `flds` that the filter sets, with its value. */
  predicate SoundFor(f: Filter, flds: seq<Field>, q: seq<(Field, string)>) {
    forall i :: 0 <= i < |q| ==> q[i].0 in flds && Param(f, q[i].0) == Some(q[i].1)
  }

  /** Every field of `flds` that the filter sets is selected, with its value. */
  predicate CompleteFor(f: Filter, flds: seq<Field>, q: seq<(Field, string)>) {
    forall fld :: fld in flds && Param(f, fld).Some? ==> (fld, Param(f, fld).value) in q
  }

  /** The selected pairs come in strictly increasing rank. */
  predicate PairsRankOrdered(q: seq<(Field, string)>) {
    forall i, j :: 0 <= i < j < |q| ==> Rank(q[i].0) < Rank(q[j].0)
  }

  /** No selected pair ranks below `r`. */
  predicate RanksFrom(r: nat, q: seq<(Field, string)>) {
    forall i :: 0 <= i < |q| ==> r <= Rank(q[i].0)
  }

  /** `Select` keeps only fields of the list, each with the value sent for it. */
  lemma {:induction false} SelectSound(f: Filter, flds: seq<Field>)
    ensures SoundFor(f, flds, Select(f, flds))
    decreases |flds|
  {
    if |flds| > 0 {
      SelectSound(f, flds[1..]);
      var rest := Select(f, flds[1..]);
      forall i | 0 <= i < |rest|
        ensures rest[i].0 in flds
      {
        assert rest[i].0 in flds[1..];
      }
    }
  }

  /** `Select` keeps every field of the list that the filter sets. */
  lemma {:induction false} SelectComplete(f: Filter, flds: seq<Field>)
    ensures CompleteFor(f, flds, Select(f, flds))
    decreases |flds|
  {
    if |flds| > 0 {
      SelectComplete(f, flds[1..]);
      forall fld | fld in flds && Param(f, fld).Some?
        ensures (fld, Param(f, fld).value) in Select(f, flds)
      {
        if fld != flds[0] {
          assert fld in flds[1..];
        }
      }
    }
  }

  /** From a rank-ordered list, nothing `Select` keeps ranks before the list's head. */
  lemma {:induction false} SelectAfterHead(f: Filter, flds: seq<Field>)
    requires |flds| > 0 && RankOrdered(flds)
    ensures RanksFrom(Rank(flds[0]), Select(f, flds))
    decreases |flds|
  {
    var rest := Select(f, flds[1..]);
    if |flds| > 1 {
      SelectAfterHead(f, flds[1..]);
      assert flds[1..][0] == flds[1];
      assert Rank(flds[0]) < Rank(flds[1]);
    } else {
      assert rest == [];
    }
  }

  /** From a rank-ordered list, `Select` keeps its fields in rank order. */
  lemma {:induction false} SelectOrdered(f: Filter, flds: seq<Field>)
    requires RankOrdered(flds)
    ensures PairsRankOrdered(Select(f, flds))
    decreases |flds|
  {
    if |flds| > 0 {
      SelectOrdered(f, flds[1..]);
      if Param(f, flds[0]).Some? && |flds| > 1 {
        SelectAfterHead(f, flds[1..]);
        assert flds[1..][0] == flds[1];
        assert Rank(flds[0]) < Rank(flds[1]);
      }
    }
  }

  /** From a rank-ordered list, `Select` keeps exactly the set fields with their
      values, and keeps them in rank order. */
  lemma SelectSpec(f: Filter, flds: seq<Field>)
    requires RankOrdered(flds)
    ensures SoundFor(f, flds, Select(f, flds))
    ensures CompleteFor(f, flds, Select(f, flds))
    ensures PairsRankOrdered(Select(f, flds))
  {
    SelectSound(f, flds);
    SelectComplete(f, flds);
    SelectOrdered(f, flds);
  }

  /** The parameters named by field: each field replaced by its parameter name. */
  function Named(q: seq<(Field, string)>): (r: seq<Pair>)
    ensures |r| == |q|
    ensures forall i :: 0 <= i < |q| ==> r[i] == (Key(q[i].0), q[i].1)
  {
    seq(|q|, i requires 0 <= i < |q| => (Key(q[i].0), q[i].1))
  }

  /** The guarded appends for a list of fields, in list order, starting from `q`. */
  function AppendAll(q: seq<Pair>, f: Filter, flds: seq<Field>): seq<Pair>
    decreases |flds|
  {
    if |flds| == 0 then q
    else AppendAll(AppendIf(q, Key(flds[0]), Param(f, flds[0])), f, flds[1..])
  }

  lemma NamedCons(head: (Field, string), rest: seq<(Field, string)>)
    ensures Named([head] + rest) == [(Key(head.0), head.1)] + Named(rest)
  {
    var l := Named([head] + rest);
    var r := [(Key(head.0), head.1)] + Named(rest);
    assert |l| == |r|;
    forall i | 0 <= i < |l|
      ensures l[i] == r[i]
    {
      if i > 0 {
        assert ([head] + rest)[i] == rest[i - 1];
      }
    }
  }

  /** Folding the guarded appends over a field list adds the named selection. */
  lemma {:induction false} AppendAllSelect(q: seq<Pair>, f: Filter, flds: seq<Field>)
    ensures AppendAll(q, f, flds) == q + Named(Select(f, flds))
    decreases |flds|
  {
    if |flds| == 0 {
      assert q + [] == q;
    } else {
      var v := Param(f, flds[0]);
      var q' := AppendIf(q, Key(flds[0]), v);
      var rest := Select(f, flds[1..]);
      AppendAllSelect(q', f, flds[1..]);
      if v.Some? {
        var x := (Key(flds[0]), v.value);
        NamedCons((flds[0], v.value), rest);
        assert (q + [x]) + Named(rest) == q + ([x] + Named(rest));
      }
    }
  }

  /** Each parameter of `q` is named after a field the filter sets and carries the
      text sent for that field. */
  predicate NamesSetFields(f: Filter, q: seq<Pair>) {
    forall i :: 0 <= i < |q| ==> FieldOf(q[i].0).Some? && Param(f, FieldOf(q[i].0).value) == Some(q[i].1)
  }

  /** Every field the filter sets appears in `q`, under its name, with its text. */
  predicate CarriesSetFields(f: Filter, q: seq<Pair>) {
    forall fld :: Param(f, fld).Some? ==> exists i :: 0 <= i < |q| && q[i] == (Key(fld), Param(f, fld).value)
  }

  /** The parameters of `q` name fields in strictly increasing field order, so no
      field appears twice. */
  predicate NamesInFieldOrder(q: seq<Pair>) {
    forall i, j :: 0 <= i < j < |q| ==>
      FieldOf(q[i].0).Some? && FieldOf(q[j].0).Some? &&
      Rank(FieldOf(q[i].0).value) < Rank(FieldOf(q[j].0).value)
  }

  /** Naming a rank-ordered selection of exactly the set fields gives a query that
      names exactly the set fields, in field order. */
  lemma NamedContents(f: Filter, s: seq<(Field, string)>)
    requires SoundFor(f, FieldOrder, s) && CompleteFor(f, FieldOrder, s) && PairsRankOrdered(s)
    ensures NamesSetFields(f, Named(s))
    ensures CarriesSetFields(f, Named(s))
    ensures NamesInFieldOrder(Named(s))
    ensures |Named(s)| == 0 <==> IsBlank(f)
  {
    var q := Named(s);
    forall i | 0 <= i < |q|
      ensures FieldOf(q[i].0) == Some(s[i].0) && q[i].1 == s[i].1
    {
      FieldOfKey(s[i].0);
    }
    forall fld | Param(f, fld).Some?
      ensures (Key(fld), Param(f, fld).value) in q
    {
      InFieldOrder(fld);
      var i :| 0 <= i < |s| && s[i] == (fld, Param(f, fld).value);
      assert q[i] == (Key(fld), Param(f, fld).value);
    }
    if |q| > 0 {
      assert Param(f, s[0].0).Some?;
    }
  }

  lemma FieldOfKey(fld: Field)
    ensures FieldOf(Key(fld)) == Some(fld)
  {
  }

  lemma InFieldOrder(fld: Field)
    ensures fld in FieldOrder
  {
    assert FieldOrder[Rank(fld)] == fld;
  }

  /** `${API_URL}/character`. */
  function CharactersEndpoint(apiUrl: string): string {
    apiUrl + "/character"
  }

  /** `url += ?${queryParams}` when the query has at least one parameter: the URL is
      left alone exactly when the query is empty, and otherwise gains `?` and the
      serialized query. */
  function WithQuery(url: string, q: seq<Pair>, enc: string -> string): (u: string)
    ensures u == url <==> |q| == 0
    ensures |q| > 0 ==> u == url + "?" + Serialize(q, enc)
  {
    if |q| > 0 then url + "?" + Serialize(q, enc) else url
  }

  /** The URL handed to the HTTP client, for an endpoint and a filter: the bare
      endpoint exactly when no filter field is truthy. */
  function RequestUrl(endpoint: string, f: Filter, enc: string -> string): (url: string)
    ensures url == endpoint <==> IsBlank(f)
  {
    WithQuery(endpoint, QueryPairs(f), enc)
  }

  /** Whoever receives the URL recovers from its query exactly the filter's truthy
      fields, in order, provided the encoding escapes `&` and `=` and can be undone. */
  lemma RequestUrlCarriesFilter(endpoint: string, f: Filter, enc: string -> string, dec: string -> string)
    requires CodecPair(enc, dec)
    ensures var url := RequestUrl(endpoint, f, enc);
      && |url| >= |endpoint| && url[..|endpoint|] == endpoint
      && (IsBlank(f) ==> |url| == |endpoint|)
      && (!IsBlank(f) ==>
            && url[|endpoint|] == '?'
            && Parse(url[|endpoint| + 1..], dec) == QueryPairs(f))
  {
    var url := RequestUrl(endpoint, f, enc);
    assert url == WithQuery(endpoint, QueryPairs(f), enc);
    if !IsBlank(f) {
      ParseSerialize(QueryPairs(f), enc, dec);
    }
  }

  /** The default filter sends the bare endpoint. */
  lemma NoFilterIsBareUrl(endpoint: string, enc: string -> string)
    ensures RequestUrl(endpoint, NoFilter, enc) == endpoint
  {
    assert IsBlank(NoFilter);
  }

  /** Empty texts and page 0 count as absent. */
  lemma FalsyFieldsAreOmitted()
    ensures QueryPairs(Filter(Some(PageNumber(0)), Some(""), None, Some(""), None, None)) == []
  {
    var f := Filter(Some(PageNumber(0)), Some(""), None, Some(""), None, None);
    assert IsBlank(f) by {
      forall fld: Field ensures Param(f, fld).None? { }
    }
  }

  /** For every filter, a field that is absent or falsy (page 0, an empty text) has
      no parameter in the query. */
  lemma UnsetFieldIsNotSent(f: Filter, fld: Field)
    requires Param(f, fld).None?
    ensures forall i :: 0 <= i < |QueryPairs(f)| ==> QueryPairs(f)[i].0 != Key(fld)
  {
    var q := QueryPairs(f);
    forall i | 0 <= i < |q|
      ensures q[i].0 != Key(fld)
    {
      if q[i].0 == Key(fld) {
        FieldOfKey(fld);
      }
    }
  }

  /** The page text "0" is truthy, so it is sent. */
  lemma PageTextZeroIsSent()
    ensures QueryPairs(Filter(Some(PageText("0")), None, None, None, None, None)) == [("page", "0")]
  {
    QueryPairsUnfolded(Filter(Some(PageText("0")), None, None, None, None, None));
  }

  /** `{page: 2, name: "rick"}` sends `page=2`, then `name=rick`. */
  lemma PageThenName()
    ensures QueryPairs(Filter(Some(PageNumber(2)), Some("rick"), None, None, None, None))
      == [("page", "2"), ("name", "rick")]
  {
    var f := Filter(Some(PageNumber(2)), Some("rick"), None, None, None, None);
    QueryPairsUnfolded(f);
    PageThenNameAppends();
  }

  /** The six guarded appends for `{page: 2, name: "rick"}`. Kept apart from
      `PageThenName` so that evaluating them does not bring in `QueryPairs`'s
      contract, which makes the solver's work on the example several times larger. */
  lemma PageThenNameAppends()
    ensures AppendIf(AppendIf(AppendIf(AppendIf(AppendIf(AppendIf([],
        "page", PageParam(Some(PageNumber(2)))),
        "name", TextParam(Some("rick"))),
        "status", TextParam(None)),
        "species", TextParam(None)),
        "type", TextParam(None)),
        "gender", TextParam(None))
      == [("page", "2"), ("name", "rick")]
  {
    assert NumberText.IntToText(2) == "2";
  }
}
