/** A plain JavaScript object with string keys and string values (a
    collection's `data`, label to token id), as the list of its own entries
    in the order they were added. An object built by the operations below
    never holds a key twice. */
module Objects {

  type Entry = (string, string)

  /** `Object.keys(obj)` */
  function Keys(es: seq<Entry>): (ks: seq<string>)
    ensures |ks| == |es| && forall i :: 0 <= i < |es| ==> ks[i] == es[i].0
  {
    seq(|es|, i requires 0 <= i < |es| => es[i].0)
  }

  /** No key occurs twice, as in every JavaScript object. */
  predicate UniqueKeys(es: seq<Entry>) {
    forall i, j :: 0 <= i < j < |es| ==> es[i].0 != es[j].0
  }

  /** `Object.fromEntries(es)` seen as a dictionary: a later entry for the
      same key overrides an earlier one. */
  function ToMap(es: seq<Entry>): map<string, string> {
    if es == [] then map[]
    else
      var m := ToMap(es[1..]);
      if es[0].0 in m then m else m[es[0].0 := es[0].1]
  }

  /** The dictionary has exactly the object's keys. */
  lemma {:induction false} ToMapKeys(es: seq<Entry>)
    ensures forall k :: k in ToMap(es) <==> k in Keys(es)
  {
    if es != [] {
      ToMapKeys(es[1..]);
      assert Keys(es) == [es[0].0] + Keys(es[1..]);
    }
  }

  // ---------------------------------------------------------------------------
  // Property assignment

  /** Every entry for key `k` gets the value `v`. */
  function SetAll(es: seq<Entry>, k: string, v: string): (r: seq<Entry>)
    ensures Keys(r) == Keys(es)
  {
    if es == [] then []
    else [if es[0].0 == k then (k, v) else es[0]] + SetAll(es[1..], k, v)
  }

  /** `obj[k] = v`: an existing property keeps its place and takes the new
      value; a new one is appended. */
  function Assign(es: seq<Entry>, k: string, v: string): (r: seq<Entry>)
    ensures k in Keys(es) ==> Keys(r) == Keys(es)
    ensures k !in Keys(es) ==> r == es + [(k, v)]
  {
    if k in Keys(es) then SetAll(es, k, v) else es + [(k, v)]
  }

  lemma {:induction false} SetAllAbsent(es: seq<Entry>, k: string, v: string)
    requires k !in Keys(es)
    ensures SetAll(es, k, v) == es
  {
    if es != [] {
      assert Keys(es[1..]) == Keys(es)[1..];
      SetAllAbsent(es[1..], k, v);
    }
  }

  /** Updates of two different keys commute. */
  lemma UpdatesCommute(m: map<string, string>, k: string, v: string, k2: string, v2: string)
    requires k != k2
    ensures m[k := v][k2 := v2] == m[k2 := v2][k := v]
  {
  }

  /** A second update of the same key overrides the first. */
  lemma UpdateTwice(m: map<string, string>, k: string, v: string, v2: string)
    ensures m[k := v][k := v2] == m[k := v2]
  {
  }

  /** One step of the dictionary view: an entry in front of `rest`, whose
      dictionary `rest` can already be updated at `k`. */
  lemma ToMapConsUpdate(e: Entry, rest: seq<Entry>, rest2: seq<Entry>, k: string, v: string)
    requires ToMap(rest2) == ToMap(rest)[k := v]
    requires e.0 != k
    ensures ToMap([e] + rest2) == ToMap([e] + rest)[k := v]
  {
    assert ([e] + rest2)[1..] == rest2 && ([e] + rest)[1..] == rest;
    var m := ToMap(rest);
    if e.0 !in m {
      UpdatesCommute(m, k, v, e.0, e.1);
    }
  }

  lemma {:induction false} SetAllMap(es: seq<Entry>, k: string, v: string)
    requires k in Keys(es)
    ensures ToMap(SetAll(es, k, v)) == ToMap(es)[k := v]
  {
    var rest := es[1..];
    assert Keys(rest) == Keys(es)[1..];
    var r := SetAll(es, k, v);
    assert r == [r[0]] + SetAll(rest, k, v) && es == [es[0]] + rest;
    if es[0].0 == k {
      var m := ToMap(rest);
      ToMapKeys(rest);
      if k in Keys(rest) {
        SetAllMap(rest, k, v);
        ToMapKeys(SetAll(rest, k, v));
      } else {
        SetAllAbsent(rest, k, v);
        UpdateTwice(m, k, es[0].1, v);
      }
    } else {
      SetAllMap(rest, k, v);
      ToMapConsUpdate(es[0], rest, SetAll(rest, k, v), k, v);
    }
  }

  lemma {:induction false} ToMapAppend(es: seq<Entry>, k: string, v: string)
    ensures ToMap(es + [(k, v)]) == ToMap(es)[k := v]
  {
    if es != [] {
      var rest := es[1..];
      assert es + [(k, v)] == [es[0]] + (rest + [(k, v)]) && es == [es[0]] + rest;
      ToMapAppend(rest, k, v);
      if es[0].0 == k {
        ToMapKeys(rest);
        ToMapKeys(rest + [(k, v)]);
        assert k in Keys(rest + [(k, v)]);
        UpdateTwice(ToMap(rest), k, es[0].1, v);
      } else {
        ToMapConsUpdate(es[0], rest, rest + [(k, v)], k, v);
      }
    } else {
      assert es + [(k, v)] == [(k, v)];
    }
  }

  /** Assignment updates the dictionary at `k` and nowhere else. */
  lemma AssignMap(es: seq<Entry>, k: string, v: string)
    ensures ToMap(Assign(es, k, v)) == ToMap(es)[k := v]
  {
    if k in Keys(es) {
      SetAllMap(es, k, v);
    } else {
      ToMapAppend(es, k, v);
    }
  }

  /** Assignment never makes a key occur twice. */
  lemma AssignUnique(es: seq<Entry>, k: string, v: string)
    requires UniqueKeys(es)
    ensures UniqueKeys(Assign(es, k, v))
  {
    var r := Assign(es, k, v);
    if k !in Keys(es) {
      forall i, j | 0 <= i < j < |r|
        ensures r[i].0 != r[j].0
      {
        if j == |es| {
          assert r[i].0 == Keys(es)[i];
        }
      }
    } else {
      assert Keys(r) == Keys(es);
      forall i, j | 0 <= i < j < |r|
        ensures r[i].0 != r[j].0
      {
        assert Keys(r)[i] == Keys(es)[i] && Keys(r)[j] == Keys(es)[j];
      }
    }
  }

  /** In an object, the dictionary maps each key to the value of its entry. */
  lemma {:induction false} ToMapAt(es: seq<Entry>, i: nat)
    requires UniqueKeys(es) && i < |es|
    ensures es[i].0 in ToMap(es) && ToMap(es)[es[i].0] == es[i].1
  {
    ToMapKeys(es[1..]);
    if i == 0 {
      assert es[0].0 !in Keys(es[1..]);
    } else {
      assert es[0].0 != es[i].0;
      ToMapAt(es[1..], i - 1);
    }
  }

  // ---------------------------------------------------------------------------
  // Key order

  /** `a < b` on strings: the first differing character decides, and a proper
      prefix comes first. */
  predicate LexLess(a: string, b: string) {
    if b == [] then false
    else if a == [] then true
    else if a[0] != b[0] then a[0] < b[0]
    else LexLess(a[1..], b[1..])
  }

  lemma {:induction false} LexIrreflexive(a: string)
    ensures !LexLess(a, a)
  {
    if a != [] {
      LexIrreflexive(a[1..]);
    }
  }

  lemma {:induction false} LexTransitive(a: string, b: string, c: string)
    requires LexLess(a, b) && LexLess(b, c)
    ensures LexLess(a, c)
  {
    if a != [] && a[0] == b[0] && b[0] == c[0] {
      LexTransitive(a[1..], b[1..], c[1..]);
    }
  }

  /** Two different strings are ordered one way or the other. */
  lemma {:induction false} LexTotal(a: string, b: string)
    requires a != b
    ensures LexLess(a, b) || LexLess(b, a)
  {
    if a != [] && b != [] && a[0] == b[0] {
      assert a == [a[0]] + a[1..] && b == [b[0]] + b[1..];
      LexTotal(a[1..], b[1..]);
    }
  }

  lemma LexAsymmetric(a: string, b: string)
    requires LexLess(a, b)
    ensures !LexLess(b, a)
  {
    if LexLess(b, a) {
      LexTransitive(a, b, a);
      LexIrreflexive(a);
    }
  }

  // ---------------------------------------------------------------------------
  // sortObject (utils.js:59-61)

  /** Entries in strictly increasing key order. */
  predicate StrictlySorted(es: seq<Entry>) {
    forall i, j :: 0 <= i < j < |es| ==> LexLess(es[i].0, es[j].0)
  }

  /** Insertion of one entry into a sorted list, before the first larger key. */
  function Insert(e: Entry, s: seq<Entry>): (r: seq<Entry>)
    ensures multiset(r) == multiset(s) + multiset{e}
  {
    if s == [] then [e]
    else if LexLess(e.0, s[0].0) then [e] + s
    else
      assert s == [s[0]] + s[1..];
      [s[0]] + Insert(e, s[1..])
  }

  lemma SortedTail(s: seq<Entry>)
    requires s != [] && StrictlySorted(s)
    ensures StrictlySorted(s[1..])
  {
    forall i, j | 0 <= i < j < |s| - 1
      ensures LexLess(s[1..][i].0, s[1..][j].0)
    {
      assert s[1..][i] == s[i + 1] && s[1..][j] == s[j + 1];
    }
  }

  /** A key below the first of a sorted list is below all of them. */
  lemma InsertFront(e: Entry, s: seq<Entry>)
    requires s != [] && StrictlySorted(s) && LexLess(e.0, s[0].0)
    ensures StrictlySorted([e] + s)
  {
    var r := [e] + s;
    forall i, j | 0 <= i < j < |r|
      ensures LexLess(r[i].0, r[j].0)
    {
      if i == 0 {
        if j > 1 {
          LexTransitive(e.0, s[0].0, s[j - 1].0);
        }
      } else {
        assert r[i] == s[i - 1] && r[j] == s[j - 1];
      }
    }
  }

  /** The first entry of a sorted list stays first when a larger key is inserted behind it. */
  lemma InsertBehind(e: Entry, s: seq<Entry>, t: seq<Entry>)
    requires s != [] && StrictlySorted(s) && LexLess(s[0].0, e.0)
    requires StrictlySorted(t) && multiset(t) == multiset(s[1..]) + multiset{e}
    ensures StrictlySorted([s[0]] + t)
  {
    forall j | 0 <= j < |t|
      ensures LexLess(s[0].0, t[j].0)
    {
      assert t[j] in multiset(t);
      if t[j] != e {
        assert t[j] in multiset(s[1..]);
        var i :| 0 <= i < |s[1..]| && s[1..][i] == t[j];
        assert s[i + 1] == t[j];
      }
    }
    var r := [s[0]] + t;
    forall i, j | 0 <= i < j < |r|
      ensures LexLess(r[i].0, r[j].0)
    {
      if i == 0 {
        assert r[j] == t[j - 1];
      } else {
        assert r[i] == t[i - 1] && r[j] == t[j - 1];
      }
    }
  }

  /** Inserting a new key into a sorted list keeps it sorted. */
  lemma {:induction false} InsertSorted(e: Entry, s: seq<Entry>)
    requires StrictlySorted(s) && e.0 !in Keys(s)
    ensures StrictlySorted(Insert(e, s))
  {
    if s != [] {
      if LexLess(e.0, s[0].0) {
        InsertFront(e, s);
      } else {
        assert Keys(s[1..]) == Keys(s)[1..];
        assert e.0 != Keys(s)[0];
        LexTotal(e.0, s[0].0);
        SortedTail(s);
        InsertSorted(e, s[1..]);
        InsertBehind(e, s, Insert(e, s[1..]));
      }
    }
  }

  /** `Object.fromEntries(Object.entries(val).sort())`, by key. */
  function SortObject(es: seq<Entry>): (r: seq<Entry>)
    ensures multiset(r) == multiset(es)
  {
    if es == [] then []
    else
      assert es == [es[0]] + es[1..];
      Insert(es[0], SortObject(es[1..]))
  }

  lemma {:induction false} SortObjectSorted(es: seq<Entry>)
    requires UniqueKeys(es)
    ensures StrictlySorted(SortObject(es))
  {
    if es != [] {
      var rest := SortObject(es[1..]);
      SortedKeyAbsent(es, rest);
      SortObjectSorted(es[1..]);
      InsertSorted(es[0], rest);
    }
  }

  /** The first key of an object occurs in no permutation of its other entries. */
  lemma SortedKeyAbsent(es: seq<Entry>, rest: seq<Entry>)
    requires es != [] && multiset(rest) == multiset(es[1..])
    ensures UniqueKeys(es) ==> UniqueKeys(es[1..]) && es[0].0 !in Keys(rest)
  {
    if UniqueKeys(es) {
      forall i | 0 <= i < |rest|
        ensures Keys(rest)[i] != es[0].0
      {
        assert rest[i] in multiset(es[1..]);
        var j :| 0 <= j < |es[1..]| && es[1..][j] == rest[i];
        assert es[j + 1] == rest[i];
      }
    }
  }

  lemma SortedIsUnique(es: seq<Entry>)
    requires StrictlySorted(es)
    ensures UniqueKeys(es)
  {
    forall i, j | 0 <= i < j < |es|
      ensures es[i].0 != es[j].0
    {
      LexIrreflexive(es[i].0);
    }
  }

  /** A strictly sorted list is determined by its elements. */
  lemma {:induction false} SortedUnique(a: seq<Entry>, b: seq<Entry>)
    requires StrictlySorted(a) && StrictlySorted(b) && multiset(a) == multiset(b)
    ensures a == b
  {
    if a != [] {
      assert a[0] in multiset(b);
      assert b != [];
      assert b[0] in multiset(a);
      if a[0] != b[0] {
        var j :| 0 <= j < |b| && b[j] == a[0];
        var i :| 0 <= i < |a| && a[i] == b[0];
        assert LexLess(b[0].0, a[0].0);
        assert LexLess(a[0].0, b[0].0);
        LexAsymmetric(a[0].0, b[0].0);
        assert false;
      }
      assert a == [a[0]] + a[1..] && b == [b[0]] + b[1..];
      assert multiset(a) == multiset{a[0]} + multiset(a[1..]);
      assert multiset(b) == multiset{b[0]} + multiset(b[1..]);
      assert multiset(a[1..]) == multiset(a) - multiset{a[0]};
      assert multiset(b[1..]) == multiset(b) - multiset{b[0]};
      SortedTail(a);
      SortedTail(b);
      SortedUnique(a[1..], b[1..]);
    }
  }

  /** Two objects with the same entries are the same dictionary. */
  lemma SameEntriesSameMap(a: seq<Entry>, b: seq<Entry>)
    requires UniqueKeys(a) && UniqueKeys(b) && multiset(a) == multiset(b)
    ensures ToMap(a) == ToMap(b)
  {
    ToMapKeys(a);
    ToMapKeys(b);
    forall k | k in ToMap(a)
      ensures k in ToMap(b) && ToMap(b)[k] == ToMap(a)[k]
    {
      var i :| 0 <= i < |a| && Keys(a)[i] == k;
      assert a[i] in multiset(b);
      var j :| 0 <= j < |b| && b[j] == a[i];
      assert Keys(b)[j] == k;
      ToMapAt(a, i);
      ToMapAt(b, j);
    }
    forall k | k in ToMap(b)
      ensures k in ToMap(a)
    {
      var j :| 0 <= j < |b| && Keys(b)[j] == k;
      assert b[j] in multiset(a);
      var i :| 0 <= i < |a| && a[i] == b[j];
      assert Keys(a)[i] == k;
    }
  }

  /** Sorting keeps every key/value pair: the same dictionary, in key order. */
  lemma SortObjectMap(es: seq<Entry>)
    requires UniqueKeys(es)
    ensures StrictlySorted(SortObject(es)) && ToMap(SortObject(es)) == ToMap(es)
  {
    SortObjectSorted(es);
    SortedIsUnique(SortObject(es));
    SameEntriesSameMap(SortObject(es), es);
  }

  /** Any strictly sorted arrangement of the entries is the one `sortObject` gives. */
  lemma SortObjectCanonical(es: seq<Entry>, r: seq<Entry>)
    requires UniqueKeys(es) && StrictlySorted(r) && multiset(r) == multiset(es)
    ensures SortObject(es) == r
  {
    SortObjectSorted(es);
    SortedUnique(SortObject(es), r);
  }

  /** Sorting a sorted object changes nothing. */
  lemma SortObjectIdempotent(es: seq<Entry>)
    requires UniqueKeys(es)
    ensures SortObject(SortObject(es)) == SortObject(es)
  {
    SortObjectSorted(es);
    SortedIsUnique(SortObject(es));
    SortObjectCanonical(SortObject(es), SortObject(es));
  }

  // ---------------------------------------------------------------------------
  // The order `sort()` uses

  /** `String([k, v])`: the default comparator of `sort()` compares entries by this text. */
  function EntryText(e: Entry): string {
    e.0 + "," + e.1
  }

  /** Every character of `k` sorts after `,`. */
  predicate AboveComma(k: string) {
    forall i :: 0 <= i < |k| ==> k[i] > ','
  }

  lemma {:induction false} CommaTailOrder(x: string, y: string, s: string, t: string)
    requires x != y && AboveComma(x) && AboveComma(y)
    requires s != [] && s[0] == ',' && t != [] && t[0] == ','
    ensures LexLess(x + s, y + t) <==> LexLess(x, y)
  {
    if x != [] && y != [] && x[0] == y[0] {
      assert (x + s)[1..] == x[1..] + s && (y + t)[1..] == y[1..] + t;
      assert x == [x[0]] + x[1..] && y == [y[0]] + y[1..];
      CommaTailOrder(x[1..], y[1..], s, t);
    }
  }

  /** For keys whose characters all sort after `,`, comparing entries by their
      text is comparing them by key. */
  lemma EntryTextOrder(a: Entry, b: Entry)
    requires a.0 != b.0 && AboveComma(a.0) && AboveComma(b.0)
    ensures LexLess(EntryText(a), EntryText(b)) <==> LexLess(a.0, b.0)
  {
    assert EntryText(a) == a.0 + ("," + a.1) && EntryText(b) == b.0 + ("," + b.1);
    CommaTailOrder(a.0, b.0, "," + a.1, "," + b.1);
  }

  /** So `sortObject`'s result is also in increasing text order, which is the
      order `sort()` produces, when no key has a character at or below `,`. */
  lemma SortObjectTextOrder(es: seq<Entry>)
    requires UniqueKeys(es) && forall k :: 0 <= k < |es| ==> AboveComma(es[k].0)
    ensures var r := SortObject(es);
      forall i, j :: 0 <= i < j < |r| ==> LexLess(EntryText(r[i]), EntryText(r[j]))
  {
    var r := SortObject(es);
    SortObjectSorted(es);
    forall i, j | 0 <= i < j < |r|
      ensures LexLess(EntryText(r[i]), EntryText(r[j]))
    {
      assert r[i] in multiset(es) && r[j] in multiset(es);
      var a :| 0 <= a < |es| && es[a] == r[i];
      var b :| 0 <= b < |es| && es[b] == r[j];
      LexIrreflexive(r[i].0);
      EntryTextOrder(r[i], r[j]);
    }
  }
}
