/** `normalizeCollection` and `generateCollection` of ens-collections'
    `utils.js`: a collection is an `info` record and a `data` object from
    ENS label to token id. Generation looks every listed name up, skips the
    names the IDNA conversion rejects as invalid, counts the rest and then
    normalises the result. */
module Collections {
  import opened JsValues
  import opened JsStrings
  import opened Objects
  import Casing
  import NameLists
  import Tokens

  /** The properties of `info` the helpers read or write. An absent property,
      or one holding `undefined` or `null`, is `None` (or `Undefined`). */
  datatype Info = Info(
    verified: Option<bool>,
    name: Option<string>,
    slug: Option<string>,
    supply: Option<int>,
    desc: Option<string>,
    description: Option<string>,
    links: JsValue,
    community: JsValue)

  /** A collection: `{ info, data }`. */
  datatype Project = Project(info: Info, data: seq<Entry>)

  /** The `info` of `{}`: no property set. */
  const NoInfo := Info(None, None, None, None, None, None, Undefined, Undefined)

  /** `normalizeCollection()` with no argument sees `{ info: {}, data: {} }`. */
  const NoProject := Project(NoInfo, [])

  /** `s?.trim()` */
  function OptTrim(s: Option<string>): (r: Option<string>)
    ensures r.Some? <==> s.Some?
    ensures r.Some? ==> r.value == Trim(s.value)
  {
    match s
    case None => None
    case Some(v) => Some(Trim(v))
  }

  /** `!!s` for an optional string. */
  predicate Truthy(s: Option<string>) {
    s.Some? && s.value != ""
  }

  // ---------------------------------------------------------------------------
  // normalizeCollection (utils.js:227-248)

  /** The slug a collection ends up with: the trimmed `slug`, or else the
      trimmed `name`, or else the empty string, slugified. */
  function SlugOf(info: Info): (r: string)
    ensures Casing.IsSlug(r)
    ensures info.slug.Some? ==> r == Casing.Slugify(Trim(info.slug.value))
    ensures info.slug.None? && info.name.Some? ==> r == Casing.Slugify(Trim(info.name.value))
    ensures info.slug.None? && info.name.None? ==> r == Casing.Slugify("")
  {
    Casing.Slugify(OptTrim(info.slug).OrElse(OptTrim(info.name)).GetOr(""))
  }

  /** What `normalizeCollection(p)` returns. */
  function Normalized(p: Project): Project {
    var info := p.info;
    var slug := SlugOf(info);
    Project(
      info.(
        verified := Some(false),
        name := Some(OptTrim(info.name).GetOr(Casing.Namify(slug))),
        slug := Some(slug),
        supply := Some(info.supply.GetOr(|Keys(p.data)|)),
        description := OptTrim(if Truthy(info.desc) then info.desc else info.description),
        links := Arr(NameLists.Arrayify(info.links)),
        community := Arr(NameLists.Arrayify(info.community))),
      SortObject(p.data))
  }

  /** `normalizeCollection(project)`: the copy `result` is normalised one
      property after the other. The input is a value, so it is left as it was. */
  method NormalizeCollection(project: Project) returns (result: Project)
    ensures result == Normalized(project)
  {
    var info := project.info;
    var data := project.data;
    info := info.(verified := Some(false));
    info := info.(name := OptTrim(info.name));
    info := info.(slug := OptTrim(info.slug));
    info := info.(supply := Some(info.supply.GetOr(|Keys(data)|)));
    info := info.(slug := Some(Casing.Slugify(info.slug.OrElse(info.name).GetOr(""))));
    info := info.(name := Some(info.name.GetOr(Casing.Namify(info.slug.value))));
    info := info.(description := if Truthy(info.desc) then info.desc else info.description);
    info := info.(description := OptTrim(info.description));
    info := info.(links := Arr(NameLists.Arrayify(info.links)));
    info := info.(community := Arr(NameLists.Arrayify(info.community)));
    data := SortObject(data);
    result := Project(info, data);
  }

  /** After normalisation the collection is unverified, has a name, a slug
      made of `[0-9a-z-]` without doubled `-`, and a supply (the given one, or
      else the number of labels); links and community are arrays; and `data`
      holds the same label/id pairs, sorted by label. */
  lemma NormalizedShape(p: Project)
    requires UniqueKeys(p.data)
    ensures var r := Normalized(p);
      && r.info.verified == Some(false)
      && r.info.name.Some? && r.info.slug.Some? && Casing.IsSlug(r.info.slug.value)
      && r.info.supply == (if p.info.supply.Some? then p.info.supply else Some(|p.data|))
      && r.info.links.Arr? && r.info.community.Arr?
      && StrictlySorted(r.data) && ToMap(r.data) == ToMap(p.data)
  {
    SortObjectMap(p.data);
  }

  /** A given name is kept, trimmed; without one the name is made from the
      slug, and then it has a space exactly where the slug has a `-`. */
  lemma NormalizedName(p: Project)
    ensures p.info.name.Some? ==> Normalized(p).info.name == Some(Trim(p.info.name.value))
    ensures p.info.name.None? ==> var n := Normalized(p).info.name.value;
      |n| == |SlugOf(p.info)| && forall i :: 0 <= i < |n| ==> (n[i] == ' ' <==> SlugOf(p.info)[i] == '-')
  {
    if p.info.name.None? {
      var s := SlugOf(p.info);
      NamifySlugSpaces(s);
      assert Normalized(p).info.name.value == Casing.Namify(s);
    }
  }

  /** The name made from a slug has a space exactly where the slug has a `-`. */
  lemma NamifySlugSpaces(s: string)
    requires Casing.IsSlug(s)
    ensures var n := Casing.Namify(s);
      |n| == |s| && forall i :: 0 <= i < |n| ==> (n[i] == ' ' <==> s[i] == '-')
  {
    Casing.NamifyShape(s);
    forall i | 0 <= i < |s|
      ensures Casing.Namify(s)[i] == ' ' <==> s[i] == '-'
    {
      Casing.NamifyAt(s, i);
      assert Casing.IsSlugChar(s[i]);
    }
  }

  /** The description is the non-empty `desc`, or else `description`, trimmed. */
  lemma NormalizedDescription(p: Project)
    ensures Truthy(p.info.desc) ==> Normalized(p).info.description == Some(Trim(p.info.desc.value))
    ensures !Truthy(p.info.desc) ==> Normalized(p).info.description == OptTrim(p.info.description)
  {
  }

  /** The name `namify` makes from a slug that neither starts nor ends with
      `-` has no white space at either end. */
  lemma NamifyTrimmed(s: string)
    requires Casing.IsSlug(s) && (s == [] || (s[0] != '-' && s[|s| - 1] != '-'))
    ensures Trim(Casing.Namify(s)) == Casing.Namify(s)
  {
    var n := Casing.Namify(s);
    Casing.NamifyShape(s);
    if s != [] {
      Casing.NamifyAt(s, 0);
      Casing.NamifyAt(s, |s| - 1);
      assert Casing.IsSlugChar(s[0]) && Casing.IsSlugChar(s[|s| - 1]);
      TrimFixed(n);
    }
  }

  /** The slug of a collection whose slug is already normalised is that slug. */
  lemma SlugOfSlug(info: Info, s: string)
    requires Casing.IsSlug(s) && info.slug == Some(s)
    ensures SlugOf(info) == s
  {
    Casing.SlugShape(s);
    TrimSpaceless(s);
    Casing.SlugifyFixed(s);
  }

  /** A second normalisation keeps the name, under the conditions of `NormalizeStable`. */
  lemma StableName(p: Project)
    requires p.info.name.Some? || var s := SlugOf(p.info); s == [] || (s[0] != '-' && s[|s| - 1] != '-')
    ensures Normalized(Normalized(p)).info.name == Normalized(p).info.name
  {
    match p.info.name {
      case Some(n) => TrimIdempotent(n);
      case None => NamifyTrimmed(SlugOf(p.info));
    }
  }

  /** A second normalisation keeps the slug. */
  lemma StableSlug(p: Project)
    ensures Normalized(Normalized(p)).info.slug == Normalized(p).info.slug
  {
    SlugOfSlug(Normalized(p).info, SlugOf(p.info));
  }

  /** A second normalisation keeps the description. */
  lemma StableDescription(p: Project)
    ensures Normalized(Normalized(p)).info.description == Normalized(p).info.description
  {
    if Truthy(p.info.desc) {
      TrimIdempotent(p.info.desc.value);
    } else if p.info.description.Some? {
      TrimIdempotent(p.info.description.value);
    }
  }

  /** A second normalisation keeps links and community. */
  lemma StableArrays(p: Project)
    requires NameLists.ArrayifiesFlat(p.info.links) && NameLists.ArrayifiesFlat(p.info.community)
    ensures Normalized(Normalized(p)).info.links == Normalized(p).info.links
    ensures Normalized(Normalized(p)).info.community == Normalized(p).info.community
  {
    NameLists.ArrayifyIdempotent(p.info.links);
    NameLists.ArrayifyIdempotent(p.info.community);
  }

  /** Normalising a normalised collection changes nothing, provided its
      links and community nest arrays at most two deep and either it had a
      name or its slug neither starts nor ends with `-` (otherwise the name
      made from the slug begins or ends with a space, which the second pass
      trims). */
  lemma NormalizeStable(p: Project)
    requires UniqueKeys(p.data)
    requires NameLists.ArrayifiesFlat(p.info.links) && NameLists.ArrayifiesFlat(p.info.community)
    requires p.info.name.Some? || var s := SlugOf(p.info); s == [] || (s[0] != '-' && s[|s| - 1] != '-')
    ensures Normalized(Normalized(p)) == Normalized(p)
  {
    StableName(p);
    StableSlug(p);
    StableDescription(p);
    StableArrays(p);
    SortObjectIdempotent(p.data);
  }

  // ---------------------------------------------------------------------------
  // generateCollection (utils.js:149-176)

  /** The part of the `reduce` accumulator that changes: `acc.data` and
      `acc.info.supply`. */
  datatype Acc = Acc(data: seq<Entry>, supply: int)

  /** A name whose lookup failed with an invalid-character error is skipped. */
  predicate Skipped(t: Result<Tokens.Token>) {
    t.Err? && Contains(t.message, Tokens.IllegalChar)
  }

  /** Any other failed lookup is rethrown. */
  predicate Fatal(t: Result<Tokens.Token>) {
    t.Err? && !Contains(t.message, Tokens.IllegalChar)
  }

  /** One call of the reducer. */
  function Reducer(acc: Acc, name: JsValue, idna: Tokens.Idna): (r: Result<Acc>)
    ensures r.Err? <==> Fatal(Tokens.GetTokenInfo(name, idna))
  {
    var t := Tokens.GetTokenInfo(name, idna);
    if t.Err? then
      if Contains(t.message, Tokens.IllegalChar) then Ok(acc) else Err(t.message)
    else Ok(Acc(Assign(acc.data, t.value.labelText, t.value.id), acc.supply + 1))
  }

  /** `.reduce(reducer, init)` over `names`, from the left; an exception ends it. */
  function Reduce(names: seq<JsValue>, idna: Tokens.Idna): Result<Acc>
    decreases |names|
  {
    if names == [] then Ok(Acc([], 0))
    else
      match Reduce(names[..|names| - 1], idna)
      case Err(m) => Err(m)
      case Ok(acc) => Reducer(acc, names[|names| - 1], idna)
  }

  /** The names the source accepts: `getListOfNames(names).filter(Boolean)`. */
  function NamesOf(names: JsValue): Result<seq<JsValue>> {
    match NameLists.GetListOfNames(names)
    case Err(m) => Err(m)
    case Ok(list) => Ok(Compact(list))
  }

  /** What `generateCollection(info, names)` resolves to, or the message it rejects with. */
  function Generated(info: Info, names: JsValue, idna: Tokens.Idna): Result<Project> {
    match NamesOf(names)
    case Err(m) => Err(m)
    case Ok(items) =>
      match Reduce(items, idna)
      case Err(m) => Err(m)
      case Ok(acc) => Ok(Normalized(Project(info.(supply := Some(acc.supply)), acc.data)))
  }

  /** Once the reduction has thrown, it stays thrown. */
  lemma {:induction false} ReduceErrSticky(names: seq<JsValue>, k: nat, idna: Tokens.Idna)
    requires k <= |names| && Reduce(names[..k], idna).Err?
    ensures Reduce(names, idna) == Reduce(names[..k], idna)
    decreases |names| - k
  {
    if k < |names| {
      assert names[..k + 1][..k] == names[..k];
      ReduceErrSticky(names, k + 1, idna);
    } else {
      assert names[..k] == names;
    }
  }

  /** The `reduce` of `generateCollection`: the reducer mutates `acc.data`
      and `acc.info.supply` once per accepted name. */
  method ReduceNames(items: seq<JsValue>, idna: Tokens.Idna) returns (r: Result<Acc>)
    ensures r == Reduce(items, idna)
  {
    var data: seq<Entry> := [];
    var supply := 0;
    for k := 0 to |items|
      invariant Reduce(items[..k], idna) == Ok(Acc(data, supply))
    {
      assert items[..k + 1][..k] == items[..k] && items[..k + 1][k] == items[k];
      var token := Tokens.GetTokenInfo(items[k], idna);
      if token.Err? {
        if Contains(token.message, Tokens.IllegalChar) {
          continue;
        }
        ReduceErrSticky(items, k + 1, idna);
        return Err(token.message);
      }
      data := Assign(data, token.value.labelText, token.value.id);
      supply := supply + 1;
    }
    assert items[..|items|] == items;
    return Ok(Acc(data, supply));
  }

  /** `generateCollection(info, names)` (`utils.js`:149-176). */
  method GenerateCollection(info: Info, names: JsValue, idna: Tokens.Idna) returns (r: Result<Project>)
    ensures r == Generated(info, names, idna)
  {
    var list := NamesOf(names);
    if list.Err? {
      return Err(list.message);
    }
    var result := ReduceNames(list.value, idna);
    if result.Err? {
      return Err(result.message);
    }
    var project := NormalizeCollection(Project(info.(supply := Some(result.value.supply)), result.value.data));
    return Ok(project);
  }

  // ---------------------------------------------------------------------------
  // What generation computes

  /** The tokens of the names whose lookup succeeds, in order. */
  function Accepted(names: seq<JsValue>, idna: Tokens.Idna): (ts: seq<Tokens.Token>)
    decreases |names|
  {
    if names == [] then []
    else
      var init := Accepted(names[..|names| - 1], idna);
      match Tokens.GetTokenInfo(names[|names| - 1], idna)
      case Ok(t) => init + [t]
      case Err(_) => init
  }

  /** Label to token id, the later of two tokens with the same label winning. */
  function LabelMap(ts: seq<Tokens.Token>): map<string, string>
    decreases |ts|
  {
    if ts == [] then map[]
    else LabelMap(ts[..|ts| - 1])[ts[|ts| - 1].labelText := ts[|ts| - 1].id]
  }

  /** The message of the first lookup that is neither successful nor skipped. */
  function FirstFatal(names: seq<JsValue>, idna: Tokens.Idna): (r: Option<string>)
    ensures r.Some? ==> exists i :: 0 <= i < |names| && Tokens.GetTokenInfo(names[i], idna) == Err(r.value)
  {
    if names == [] then None
    else if Fatal(Tokens.GetTokenInfo(names[0], idna)) then Some(Tokens.GetTokenInfo(names[0], idna).message)
    else
      var r := FirstFatal(names[1..], idna);
      if r.Some? then
        var i :| 0 <= i < |names[1..]| && Tokens.GetTokenInfo(names[1..][i], idna) == Err(r.value);
        assert names[i + 1] == names[1..][i];
        r
      else r
  }

  lemma {:induction false} FirstFatalAppend(names: seq<JsValue>, x: JsValue, idna: Tokens.Idna)
    ensures FirstFatal(names + [x], idna) ==
      if FirstFatal(names, idna).Some? then FirstFatal(names, idna)
      else if Fatal(Tokens.GetTokenInfo(x, idna)) then Some(Tokens.GetTokenInfo(x, idna).message)
      else None
  {
    if names == [] {
      assert [] + [x] == [x];
      assert [x][1..] == [];
    } else {
      assert (names + [x])[1..] == names[1..] + [x];
      FirstFatalAppend(names[1..], x, idna);
    }
  }

  /** The reduction throws exactly when some lookup fails with an error other
      than an invalid character, and then with the first such error; when it
      does not, the supply counts every successful lookup, duplicates
      included, and `data` maps each label to the id of its last lookup, no
      label appearing twice. */
  lemma ReduceMeaning(names: seq<JsValue>, idna: Tokens.Idna)
    ensures Reduce(names, idna).Err? <==> FirstFatal(names, idna).Some?
    ensures Reduce(names, idna).Err? ==> Reduce(names, idna).message == FirstFatal(names, idna).value
    ensures Reduce(names, idna).Ok? ==>
      var acc := Reduce(names, idna).value;
      acc.supply == |Accepted(names, idna)| && ToMap(acc.data) == LabelMap(Accepted(names, idna))
      && UniqueKeys(acc.data)
  {
    ReducesAsAccepted(names, idna);
  }

  /** The three facts `ReduceMeaning` states, as one predicate for the induction. */
  predicate ReducesAs(names: seq<JsValue>, idna: Tokens.Idna) {
    && (Reduce(names, idna).Err? <==> FirstFatal(names, idna).Some?)
    && (Reduce(names, idna).Err? ==> Reduce(names, idna).message == FirstFatal(names, idna).value)
    && (Reduce(names, idna).Ok? ==>
      var acc := Reduce(names, idna).value;
      acc.supply == |Accepted(names, idna)| && ToMap(acc.data) == LabelMap(Accepted(names, idna))
      && UniqueKeys(acc.data))
  }

  lemma {:induction false} ReducesAsAccepted(names: seq<JsValue>, idna: Tokens.Idna)
    ensures ReducesAs(names, idna)
    decreases |names|
  {
    if names != [] {
      var init := names[..|names| - 1];
      var x := names[|names| - 1];
      ReducesAsAccepted(init, idna);
      assert init + [x] == names;
      ReduceMeaningStep(init, x, idna);
    }
  }

  /** What `ReducesAs` states of `init` carries over to `init + [x]`. */
  lemma ReduceMeaningStep(init: seq<JsValue>, x: JsValue, idna: Tokens.Idna)
    requires ReducesAs(init, idna)
    ensures ReducesAs(init + [x], idna)
  {
    var names := init + [x];
    assert names[..|names| - 1] == init;
    FirstFatalAppend(init, x, idna);
    match Reduce(init, idna) {
      case Err(_) =>
      case Ok(acc) =>
        if Reducer(acc, x, idna).Ok? {
          AcceptStep(acc, init, x, idna);
        }
    }
  }

  /** One more reducer call keeps the accumulator in step with `Accepted`. */
  lemma AcceptStep(acc: Acc, init: seq<JsValue>, x: JsValue, idna: Tokens.Idna)
    requires acc.supply == |Accepted(init, idna)| && ToMap(acc.data) == LabelMap(Accepted(init, idna))
    requires UniqueKeys(acc.data) && Reducer(acc, x, idna).Ok?
    ensures var next := Reducer(acc, x, idna).value;
      next.supply == |Accepted(init + [x], idna)| && ToMap(next.data) == LabelMap(Accepted(init + [x], idna))
      && UniqueKeys(next.data)
  {
    var names := init + [x];
    assert names[..|names| - 1] == init;
    var t := Tokens.GetTokenInfo(x, idna);
    if t.Ok? {
      AssignMap(acc.data, t.value.labelText, t.value.id);
      AssignUnique(acc.data, t.value.labelText, t.value.id);
      var ts := Accepted(init, idna) + [t.value];
      assert ts[..|ts| - 1] == Accepted(init, idna);
    }
  }

  /** A successful generation is a normalised collection whose supply is the
      number of names looked up successfully (duplicates counted, whatever
      supply `info` gave), whose `data` maps each label to its last token id,
      sorted by label. */
  lemma GeneratedShape(info: Info, names: JsValue, idna: Tokens.Idna)
    requires Generated(info, names, idna).Ok?
    ensures var items := NamesOf(names).value;
      var p := Generated(info, names, idna).value;
      && p.info.supply == Some(|Accepted(items, idna)|)
      && ToMap(p.data) == LabelMap(Accepted(items, idna))
      && StrictlySorted(p.data)
      && p.info.verified == Some(false)
  {
    var items := NamesOf(names).value;
    ReduceMeaning(items, idna);
    var acc := Reduce(items, idna).value;
    NormalizedShape(Project(info.(supply := Some(acc.supply)), acc.data));
  }

  /** Generation fails exactly when the name list cannot be read or some
      name's lookup fails with anything but an invalid-character error, and
      then with the first such error. */
  lemma GeneratedErr(info: Info, names: JsValue, idna: Tokens.Idna)
    ensures NamesOf(names).Err? ==> Generated(info, names, idna) == Err(NamesOf(names).message)
    ensures NamesOf(names).Ok? ==>
      (Generated(info, names, idna).Err? <==> FirstFatal(NamesOf(names).value, idna).Some?)
    ensures NamesOf(names).Ok? && Generated(info, names, idna).Err? ==>
      Generated(info, names, idna).message == FirstFatal(NamesOf(names).value, idna).value
  {
    if NamesOf(names).Ok? {
      ReduceMeaning(NamesOf(names).value, idna);
    }
  }

  /** A truthy entry of a names array that is not a string makes generation fail. */
  lemma NonStringRejected(info: Info, items: seq<JsValue>, i: nat, idna: Tokens.Idna)
    requires i < |items| && !Falsy(items[i]) && !items[i].Str? && NoArrays(items)
    ensures Generated(info, Arr(items), idna).Err?
  {
    var names := Compact(Flat(items));
    assert Flat(items) == items;
    assert items[i] in names;
    var j :| 0 <= j < |names| && names[j] == items[i];
    Tokens.NotAStringIsFatal();
    NoFatalNone(names, j, idna);
    ReduceMeaning(names, idna);
  }

  lemma {:induction false} NoFatalNone(names: seq<JsValue>, j: nat, idna: Tokens.Idna)
    requires j < |names| && Fatal(Tokens.GetTokenInfo(names[j], idna))
    ensures FirstFatal(names, idna).Some?
  {
    if j > 0 && !Fatal(Tokens.GetTokenInfo(names[0], idna)) {
      NoFatalNone(names[1..], j - 1, idna);
    }
  }

  /** The same name listed twice is counted twice but stored once. */
  lemma DuplicateCounted(n: string, idna: Tokens.Idna)
    requires Tokens.GetTokenInfo(Str(n), idna).Ok?
    ensures var t := Tokens.GetTokenInfo(Str(n), idna).value;
      Reduce([Str(n), Str(n)], idna) == Ok(Acc([(t.labelText, t.id)], 2))
  {
    var t := Tokens.GetTokenInfo(Str(n), idna).value;
    var e := (t.labelText, t.id);
    assert [Str(n), Str(n)][..1] == [Str(n)];
    assert [Str(n)][..0] == [];
    assert Reduce([Str(n)], idna) == Ok(Acc([e], 1)) by {
      assert [] + [e] == [e];
    }
    assert Keys([e]) == [t.labelText];
    assert SetAll([e], t.labelText, t.id) == [e] + SetAll([], t.labelText, t.id);
    assert Assign([e], t.labelText, t.id) == [e];
    assert Reducer(Acc([e], 1), Str(n), idna) == Ok(Acc([e], 2));
    assert [Str(n), Str(n)][1] == Str(n);
  }
}
