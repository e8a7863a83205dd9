/**
 * `build_skill_domains` and its nested `normalize_entries` (home_refactored.py): the `skills`
 * entry of the portfolio data, in whatever shape it comes, becomes an ordered list of
 * (domain, skill strings) pairs for the three domains 데이터 엔지니어링, 백엔드 and 데브옵스.
 */
module Skills {
  import opened Wrappers
  import opened Strings
  import opened Values

  const DataEngineering: string := "데이터 엔지니어링"
  const Backend: string := "백엔드"
  const DevOps: string := "데브옵스"

  /** `domain_order` */
  const DomainOrder: seq<string> := [DataEngineering, Backend, DevOps]

  /** A domain and its skill strings. */
  type Domain = (string, seq<string>)

  // ---------------------------------------------------------------- normalize_entries

  /** `[str(item) for item in items if item]` */
  function TruthyStrs(items: seq<Value>): seq<string> {
    if items == [] then []
    else TruthyStrs(items[..|items| - 1]) + (if Truthy(items[|items| - 1]) then [Str(items[|items| - 1])] else [])
  }

  /** The text a dictionary item's descriptor contributes: its truthy items joined, or its `str`. */
  function DescriptorText(d: Value): string {
    if d.List? || d.Tuple? then Join(", ", TruthyStrs(d.items))
    else if Truthy(d) then Str(d)
    else ""
  }

  /** `"key (descriptor)"`, or the bare key when the descriptor says nothing. */
  function EntryLabel(e: Entry): string {
    var t := DescriptorText(e.value);
    if t != "" then e.key + " (" + t + ")" else e.key
  }

  /** The lists of `parts`, one after the other. */
  function Concat(parts: seq<seq<string>>): seq<string> {
    if parts == [] then [] else Concat(parts[..|parts| - 1]) + parts[|parts| - 1]
  }

  /** `normalize_entries(value)` */
  function Entries(v: Value): seq<string>
    decreases v
  {
    match v
    case Dict(es) => seq(|es|, k requires 0 <= k < |es| => EntryLabel(es[k]))
    case List(items) => Concat(seq(|items|, k requires 0 <= k < |items| => Entries(items[k])))
    case _ => if Truthy(v) then [Str(v)] else []
  }

  /** `normalize_entries`, building its lists by appending. */
  method NormalizeEntries(v: Value) returns (r: seq<string>)
    ensures r == Entries(v)
    decreases v
  {
    r := [];
    if v.Dict? {
      var es := v.entries;
      var i := 0;
      while i < |es|
        invariant 0 <= i <= |es|
        invariant r == seq(i, k requires 0 <= k < i => EntryLabel(es[k]))
      {
        var key := es[i].key;
        var descriptor := es[i].value;
        var text := if descriptor.List? || descriptor.Tuple? then Join(", ", TruthyStrs(descriptor.items))
                    else if Truthy(descriptor) then Str(descriptor) else "";
        if text != "" {
          r := r + [key + " (" + text + ")"];
        } else {
          r := r + [key];
        }
        i := i + 1;
      }
    } else if v.List? {
      var items := v.items;
      ghost var parts := seq(|items|, k requires 0 <= k < |items| => Entries(items[k]));
      var i := 0;
      while i < |items|
        invariant 0 <= i <= |items|
        invariant r == Concat(parts[..i])
      {
        var more := NormalizeEntries(items[i]);
        assert parts[..i + 1][..i] == parts[..i];
        r := r + more;
        i := i + 1;
      }
      assert parts[..i] == parts;
    } else if Truthy(v) {
      r := [Str(v)];
    }
  }

  lemma {:induction false} ConcatAppend(a: seq<seq<string>>, b: seq<seq<string>>)
    ensures Concat(a + b) == Concat(a) + Concat(b)
    decreases |b|
  {
    if b == [] {
      assert a + b == a;
    } else {
      var b0 := b[..|b| - 1];
      assert (a + b)[..|a + b| - 1] == a + b0;
      ConcatAppend(a, b0);
    }
  }

  /** A falsy value, scalar or empty collection, contributes nothing. */
  lemma FalsyGivesNothing(v: Value)
    requires !Truthy(v)
    ensures Entries(v) == []
  {
    if v.List? {
      assert seq(|v.items|, k requires 0 <= k < |v.items| => Entries(v.items[k])) == [];
    }
  }

  /** Flattening a list is flattening its two halves: order is kept and nothing is lost. */
  lemma EntriesOfListAppend(a: seq<Value>, b: seq<Value>)
    ensures Entries(List(a + b)) == Entries(List(a)) + Entries(List(b))
  {
    var pa := seq(|a|, k requires 0 <= k < |a| => Entries(a[k]));
    var pb := seq(|b|, k requires 0 <= k < |b| => Entries(b[k]));
    var ab := a + b;
    assert seq(|ab|, k requires 0 <= k < |ab| => Entries(ab[k])) == pa + pb;
    ConcatAppend(pa, pb);
  }

  /** A list holding one value flattens to that value's entries, however deep the nesting. */
  lemma EntriesOfSingleton(v: Value)
    ensures Entries(List([v])) == Entries(v)
  {
    var items := [v];
    var p := seq(|items|, k requires 0 <= k < |items| => Entries(items[k]));
    assert Entries(List(items)) == Concat(p);
    assert p[..0] == [] && p[0] == Entries(v);
    assert Concat(p) == Concat(p[..0]) + p[0];
  }

  /** Each dictionary item gives one string: its key, followed by its descriptor in parentheses when there is one. */
  lemma DictLabels(es: seq<Entry>)
    ensures |Entries(Dict(es))| == |es|
    ensures forall k :: 0 <= k < |es| ==>
      var t := DescriptorText(es[k].value);
      (t == "" && Entries(Dict(es))[k] == es[k].key)
      || (t != "" && Entries(Dict(es))[k] == es[k].key + " (" + t + ")")
  {
  }

  // ---------------------------------------------------------------- dict.fromkeys

  predicate Distinct(xs: seq<string>) {
    forall i, j :: 0 <= i < j < |xs| ==> xs[i] != xs[j]
  }

  /** `list(dict.fromkeys(xs))`: the first occurrence of each string, in order. */
  function Dedup(xs: seq<string>): seq<string> {
    if xs == [] then []
    else
      var init := xs[..|xs| - 1];
      Dedup(init) + (if xs[|xs| - 1] in init then [] else [xs[|xs| - 1]])
  }

  /** The first occurrences keep every string and repeat none. */
  lemma {:induction false} DedupSpec(xs: seq<string>)
    ensures Distinct(Dedup(xs))
    ensures forall x :: x in Dedup(xs) <==> x in xs
  {
    if xs != [] {
      var init := xs[..|xs| - 1];
      DedupSpec(init);
      assert xs == init + [xs[|xs| - 1]];
    }
  }

  /** A list without repeats is its own first occurrences. */
  lemma {:induction false} DedupOfDistinct(xs: seq<string>)
    requires Distinct(xs)
    ensures Dedup(xs) == xs
  {
    if xs != [] {
      var init := xs[..|xs| - 1];
      DedupOfDistinct(init);
      assert xs[|xs| - 1] !in init;
      assert xs == init + [xs[|xs| - 1]];
    }
  }

  /** The position of the first occurrence of `x` in `xs`. */
  function FirstIndex(xs: seq<string>, x: string): (k: nat)
    requires x in xs
    ensures k < |xs| && xs[k] == x && x !in xs[..k]
  {
    if xs[0] == x then 0
    else
      var k := FirstIndex(xs[1..], x);
      assert xs[..k + 1] == [xs[0]] + xs[1..][..k];
      k + 1
  }

  /** A position holding `x` with no `x` before it is the first occurrence. */
  lemma FirstIndexUnique(xs: seq<string>, x: string, k: nat)
    requires k < |xs| && xs[k] == x && x !in xs[..k]
    ensures FirstIndex(xs, x) == k
  {
  }

  /** The first occurrences come in the order the strings first appear in `xs`. */
  lemma {:induction false} DedupOrder(xs: seq<string>)
    ensures forall k :: 0 <= k < |Dedup(xs)| ==> Dedup(xs)[k] in xs
    ensures forall j, k :: 0 <= j < k < |Dedup(xs)| ==> FirstIndex(xs, Dedup(xs)[j]) < FirstIndex(xs, Dedup(xs)[k])
  {
    if xs != [] {
      var n := |xs| - 1;
      var init := xs[..n];
      DedupOrder(init);
      var di := Dedup(init);
      forall k | 0 <= k < |di| ensures di[k] in xs && FirstIndex(xs, di[k]) == FirstIndex(init, di[k]) {
        var f := FirstIndex(init, di[k]);
        assert xs[..f] == init[..f] && xs[f] == init[f];
        FirstIndexUnique(xs, di[k], f);
      }
      if xs[n] !in init {
        FirstIndexUnique(xs, xs[n], n);
      }
    }
  }

  // ---------------------------------------------------------------- build_skill_domains

  /** `category_to_domain.get(category, "데이터 엔지니어링")` */
  function CategoryDomain(category: string): (d: string)
    ensures d in DomainOrder
  {
    if category in {"languages", "data", "data_engineering"} then DataEngineering
    else if category in {"frameworks", "backend", "libraries"} then Backend
    else if category in {"tools", "devops", "infrastructure"} then DevOps
    else DataEngineering
  }

  function Names(ds: seq<Domain>): seq<string> {
    seq(|ds|, k requires 0 <= k < |ds| => ds[k].0)
  }

  lemma NamesAppend(a: seq<Domain>, b: seq<Domain>)
    ensures Names(a + b) == Names(a) + Names(b)
  {
  }

  /** The first loop of the explicit path: each fixed domain with its entries, when it has any. */
  function FixedExplicit(ed: seq<Entry>, order: seq<string>): seq<Domain> {
    if order == [] then []
    else
      var d := order[|order| - 1];
      var entries := Entries(GetOr(ed, d, List([])));
      FixedExplicit(ed, order[..|order| - 1]) + (if entries != [] then [(d, entries)] else [])
  }

  /** An item of the `domains` dictionary the second loop lists: not a fixed domain, and with entries. */
  predicate OtherItem(e: Entry) {
    e.key !in DomainOrder && Entries(e.value) != []
  }

  /** The second loop of the explicit path: every other domain with entries, in dictionary order. */
  function OtherExplicit(ed: seq<Entry>): seq<Domain> {
    if ed == [] then []
    else
      var e := ed[|ed| - 1];
      OtherExplicit(ed[..|ed| - 1]) + (if OtherItem(e) then [(e.key, Entries(e.value))] else [])
  }

  /** `aggregated.setdefault(key, []).extend(more)` on the dictionary's items. */
  function AddTo(agg: seq<Domain>, key: string, more: seq<string>): (r: seq<Domain>)
    ensures key in Names(agg) ==> Names(r) == Names(agg)
  {
    if agg == [] then [(key, more)]
    else if agg[0].0 == key then [(key, agg[0].1 + more)] + agg[1..]
    else
      var rest := AddTo(agg[1..], key, more);
      assert Names(agg[1..]) == Names(agg)[1..];
      assert Names([agg[0]] + rest) == [agg[0].0] + Names(rest);
      [agg[0]] + rest
  }

  /** `aggregated.get(key, [])` */
  function Lookup(agg: seq<Domain>, key: string): seq<string> {
    if agg == [] then [] else if agg[0].0 == key then agg[0].1 else Lookup(agg[1..], key)
  }

  /** `aggregated` after the category loop has read `es`. */
  function Aggregate(es: seq<Entry>): seq<Domain> {
    if es == [] then seq(|DomainOrder|, k requires 0 <= k < |DomainOrder| => (DomainOrder[k], []))
    else
      var e := es[|es| - 1];
      var agg := Aggregate(es[..|es| - 1]);
      if e.key == "domains" then agg
      else AddTo(agg, CategoryDomain(LowerAscii(e.key)), Entries(e.value))
  }

  /** The first loop of the ordering: each fixed domain with the first occurrences of its entries. */
  function FixedAggregated(agg: seq<Domain>, order: seq<string>): seq<Domain> {
    if order == [] then []
    else
      var d := order[|order| - 1];
      var entries := Dedup(Lookup(agg, d));
      FixedAggregated(agg, order[..|order| - 1]) + (if entries != [] then [(d, entries)] else [])
  }

  /** The second loop of the ordering: every other aggregated domain, in insertion order. */
  function OtherAggregated(agg: seq<Domain>): seq<Domain> {
    if agg == [] then []
    else
      var p := agg[|agg| - 1];
      var entries := Dedup(p.1);
      OtherAggregated(agg[..|agg| - 1]) + (if p.0 !in DomainOrder && entries != [] then [(p.0, entries)] else [])
  }

  /** `build_skill_domains(skills)` */
  function SkillDomains(skills: Value): seq<Domain> {
    if !skills.Dict? then []
    else
      var explicit := Get(skills.entries, "domains");
      if explicit.Some? && explicit.value.Dict? then
        FixedExplicit(explicit.value.entries, DomainOrder) + OtherExplicit(explicit.value.entries)
      else
        var agg := Aggregate(skills.entries);
        FixedAggregated(agg, DomainOrder) + OtherAggregated(agg)
  }

  // ---------------------------------------------------------------- what build_skill_domains promises

  /** Position of a fixed domain in `domain_order`; 3 for any other domain. */
  function Rank(d: string): (n: nat)
    ensures n < 3 <==> d in DomainOrder
  {
    if d == DataEngineering then 0 else if d == Backend then 1 else if d == DevOps then 2 else 3
  }

  /** Fixed domains come first, in `domain_order`, and every other domain after them. */
  predicate Ordered(ds: seq<Domain>) {
    forall i, j :: 0 <= i < j < |ds| ==> Rank(ds[i].0) < Rank(ds[j].0) || Rank(ds[j].0) == 3
  }

  /** No domain is listed twice and none is listed without entries. */
  predicate WellFormed(ds: seq<Domain>) {
    Distinct(Names(ds)) && forall k :: 0 <= k < |ds| ==> ds[k].1 != []
  }

  lemma {:induction false} FixedExplicitShape(ed: seq<Entry>, n: nat)
    requires n <= |DomainOrder|
    ensures var f := FixedExplicit(ed, DomainOrder[..n]);
      Ordered(f) && forall k :: 0 <= k < |f| ==>
        Rank(f[k].0) < n && f[k].1 != [] && f[k].1 == Entries(GetOr(ed, f[k].0, List([])))
  {
    if n > 0 {
      assert DomainOrder[..n][..n - 1] == DomainOrder[..n - 1];
      assert Rank(DomainOrder[n - 1]) == n - 1;
      FixedExplicitShape(ed, n - 1);
    }
  }

  /** Every fixed domain whose entries are not empty is listed by the first loop of the explicit path. */
  lemma {:induction false} FixedExplicitPresent(ed: seq<Entry>, n: nat)
    requires n <= |DomainOrder|
    ensures forall d :: d in DomainOrder[..n] && Entries(GetOr(ed, d, List([]))) != [] ==>
      d in Names(FixedExplicit(ed, DomainOrder[..n]))
  {
    if n > 0 {
      var order := DomainOrder[..n];
      assert order[..n - 1] == DomainOrder[..n - 1];
      assert order == DomainOrder[..n - 1] + [order[n - 1]];
      FixedExplicitPresent(ed, n - 1);
      var f0 := FixedExplicit(ed, DomainOrder[..n - 1]);
      var entries := Entries(GetOr(ed, order[n - 1], List([])));
      var tail: seq<Domain> := if entries != [] then [(order[n - 1], entries)] else [];
      NamesAppend(f0, tail);
      assert entries != [] ==> Names(tail) == [order[n - 1]];
    }
  }

  /** Some item of the dictionary has key `name` and normalizes to `entries`. */
  predicate HasItem(ed: seq<Entry>, name: string, entries: seq<string>) {
    exists j :: 0 <= j < |ed| && ed[j].key == name && Entries(ed[j].value) == entries
  }

  lemma HasItemPrefix(ed: seq<Entry>, n: nat, name: string, entries: seq<string>)
    requires n <= |ed| && HasItem(ed[..n], name, entries)
    ensures HasItem(ed, name, entries)
  {
    var j :| 0 <= j < n && ed[..n][j].key == name && Entries(ed[..n][j].value) == entries;
    assert ed[j] == ed[..n][j];
  }

  lemma HasItemNotLast(ed: seq<Entry>, name: string, entries: seq<string>)
    requires ed != [] && UniqueKeys(ed) && HasItem(ed[..|ed| - 1], name, entries)
    ensures name != ed[|ed| - 1].key
  {
    var init := ed[..|ed| - 1];
    var j :| 0 <= j < |init| && init[j].key == name && Entries(init[j].value) == entries;
    assert ed[j] == init[j];
  }

  lemma {:induction false} OtherExplicitShape(ed: seq<Entry>)
    ensures forall k :: 0 <= k < |OtherExplicit(ed)| ==>
      Rank(OtherExplicit(ed)[k].0) == 3 && OtherExplicit(ed)[k].1 != []
      && HasItem(ed, OtherExplicit(ed)[k].0, OtherExplicit(ed)[k].1)
    ensures UniqueKeys(ed) ==> Distinct(Names(OtherExplicit(ed)))
  {
    if ed != [] {
      var init := ed[..|ed| - 1];
      var last := ed[|ed| - 1];
      OtherExplicitShape(init);
      var oi := OtherExplicit(init);
      var o := OtherExplicit(ed);
      assert forall k :: 0 <= k < |oi| ==> o[k] == oi[k];
      forall k | 0 <= k < |o| ensures HasItem(ed, o[k].0, o[k].1) {
        if k < |oi| {
          HasItemPrefix(ed, |ed| - 1, o[k].0, o[k].1);
        } else {
          assert ed[|ed| - 1].key == o[k].0 && o[k].1 == Entries(last.value);
        }
      }
      if UniqueKeys(ed) {
        assert UniqueKeys(init);
        forall k | 0 <= k < |oi| ensures oi[k].0 != last.key {
          HasItemNotLast(ed, oi[k].0, oi[k].1);
        }
        assert forall k :: 0 <= k < |oi| ==> Names(o)[k] == Names(oi)[k];
      }
    }
  }

  /** The positions of the items the second loop of the explicit path lists. */
  function OtherIndices(ed: seq<Entry>): (r: seq<nat>)
    ensures forall k :: 0 <= k < |r| ==> r[k] < |ed|
  {
    if ed == [] then []
    else
      var n := |ed| - 1;
      OtherIndices(ed[..n]) + (if OtherItem(ed[n]) then [n] else [])
  }

  lemma {:induction false} OtherPicked(ed: seq<Entry>)
    ensures |OtherExplicit(ed)| == |OtherIndices(ed)|
    ensures forall k :: 0 <= k < |OtherIndices(ed)| ==>
      OtherItem(ed[OtherIndices(ed)[k]])
      && OtherExplicit(ed)[k] == (ed[OtherIndices(ed)[k]].key, Entries(ed[OtherIndices(ed)[k]].value))
  {
    if ed != [] {
      var n := |ed| - 1;
      var init := ed[..n];
      OtherPicked(init);
      forall k | 0 <= k < |OtherIndices(ed)|
        ensures OtherItem(ed[OtherIndices(ed)[k]])
          && OtherExplicit(ed)[k] == (ed[OtherIndices(ed)[k]].key, Entries(ed[OtherIndices(ed)[k]].value))
      {
        if k < |OtherIndices(init)| {
          assert ed[OtherIndices(init)[k]] == init[OtherIndices(init)[k]];
        }
      }
    }
  }

  lemma {:induction false} OtherIncreasing(ed: seq<Entry>)
    ensures forall j, k :: 0 <= j < k < |OtherIndices(ed)| ==> OtherIndices(ed)[j] < OtherIndices(ed)[k]
  {
    if ed != [] {
      OtherIncreasing(ed[..|ed| - 1]);
    }
  }

  lemma {:induction false} OtherComplete(ed: seq<Entry>)
    ensures forall i :: 0 <= i < |ed| && OtherItem(ed[i]) ==> i in OtherIndices(ed)
  {
    if ed != [] {
      var n := |ed| - 1;
      var init := ed[..n];
      OtherComplete(init);
      assert forall i :: 0 <= i < n ==> init[i] == ed[i];
    }
  }

  /**
   * The second loop of the explicit path lists exactly the items that are not fixed domains and
   * have entries, in dictionary order: the `k`-th domain it lists is the item at the `k`-th such
   * position, with its normalized entries.
   */
  lemma OtherExplicitInOrder(ed: seq<Entry>)
    ensures |OtherExplicit(ed)| == |OtherIndices(ed)|
    ensures forall j, k :: 0 <= j < k < |OtherIndices(ed)| ==> OtherIndices(ed)[j] < OtherIndices(ed)[k]
    ensures forall k :: 0 <= k < |OtherIndices(ed)| ==>
      OtherItem(ed[OtherIndices(ed)[k]])
      && OtherExplicit(ed)[k] == (ed[OtherIndices(ed)[k]].key, Entries(ed[OtherIndices(ed)[k]].value))
    ensures forall i :: 0 <= i < |ed| && OtherItem(ed[i]) ==> i in OtherIndices(ed)
  {
    OtherPicked(ed);
    OtherIncreasing(ed);
    OtherComplete(ed);
  }

  /** The fixed domains listed before the others, with the others' names distinct, make a well-formed ordered list. */
  lemma JoinShape(f: seq<Domain>, o: seq<Domain>)
    requires Ordered(f) && forall k :: 0 <= k < |f| ==> Rank(f[k].0) < 3 && f[k].1 != []
    requires Distinct(Names(o)) && forall k :: 0 <= k < |o| ==> Rank(o[k].0) == 3 && o[k].1 != []
    ensures Ordered(f + o) && WellFormed(f + o)
  {
    var r := f + o;
    forall i, j | 0 <= i < j < |r| ensures Names(r)[i] != Names(r)[j] {
      if j < |f| {
        assert Rank(r[i].0) < Rank(r[j].0);
      } else if i >= |f| {
        assert Names(o)[i - |f|] != Names(o)[j - |f|];
      } else {
        assert Rank(r[i].0) < 3 == Rank(r[j].0);
      }
    }
  }

  /** `aggregated.setdefault(key, []).extend(more)` extends the list under `key` and leaves every other list alone. */
  lemma {:induction false} LookupAddTo(agg: seq<Domain>, key: string, more: seq<string>, d: string)
    ensures Lookup(AddTo(agg, key, more), d) == Lookup(agg, d) + (if d == key then more else [])
  {
    if agg != [] && agg[0].0 != key && agg[0].0 != d {
      LookupAddTo(agg[1..], key, more, d);
    }
  }

  lemma {:induction false} LookupAllEmpty(agg: seq<Domain>, d: string)
    requires forall k :: 0 <= k < |agg| ==> agg[k].1 == []
    ensures Lookup(agg, d) == []
  {
    if agg != [] && agg[0].0 != d {
      LookupAllEmpty(agg[1..], d);
    }
  }

  /** The entries of every category mapped to domain `d`, in the order the categories come. */
  function Gathered(es: seq<Entry>, d: string): seq<string> {
    if es == [] then []
    else
      var e := es[|es| - 1];
      Gathered(es[..|es| - 1], d)
      + (if e.key != "domains" && CategoryDomain(LowerAscii(e.key)) == d then Entries(e.value) else [])
  }

  /** After the category loop, each domain holds the entries gathered for it, and the domains are the fixed three. */
  lemma {:induction false} AggregateSpec(es: seq<Entry>)
    ensures Names(Aggregate(es)) == DomainOrder
    ensures forall d :: Lookup(Aggregate(es), d) == Gathered(es, d)
  {
    if es == [] {
      forall d ensures Lookup(Aggregate(es), d) == [] {
        LookupAllEmpty(Aggregate(es), d);
      }
    } else {
      var init := es[..|es| - 1];
      AggregateSpec(init);
      var e := es[|es| - 1];
      if e.key != "domains" {
        forall d ensures Lookup(Aggregate(es), d) == Gathered(es, d) {
          LookupAddTo(Aggregate(init), CategoryDomain(LowerAscii(e.key)), Entries(e.value), d);
        }
      }
    }
  }

  /** Every fixed domain whose aggregated list is not empty is listed by the first ordering loop. */
  lemma {:induction false} FixedAggregatedPresent(agg: seq<Domain>, n: nat)
    requires n <= |DomainOrder|
    ensures forall d :: d in DomainOrder[..n] && Lookup(agg, d) != [] ==>
      d in Names(FixedAggregated(agg, DomainOrder[..n]))
  {
    if n > 0 {
      var order := DomainOrder[..n];
      assert order[..n - 1] == DomainOrder[..n - 1];
      assert order == DomainOrder[..n - 1] + [order[n - 1]];
      FixedAggregatedPresent(agg, n - 1);
      var f0 := FixedAggregated(agg, DomainOrder[..n - 1]);
      var entries := Dedup(Lookup(agg, order[n - 1]));
      DedupSpec(Lookup(agg, order[n - 1]));
      if Lookup(agg, order[n - 1]) != [] {
        assert Lookup(agg, order[n - 1])[0] in entries;
      }
      var tail: seq<Domain> := if entries != [] then [(order[n - 1], entries)] else [];
      NamesAppend(f0, tail);
      assert entries != [] ==> Names(tail) == [order[n - 1]];
    }
  }

  lemma {:induction false} FixedAggregatedShape(agg: seq<Domain>, n: nat)
    requires n <= |DomainOrder|
    ensures var f := FixedAggregated(agg, DomainOrder[..n]);
      Ordered(f) && forall k :: 0 <= k < |f| ==>
        Rank(f[k].0) < n && f[k].1 != [] && f[k].1 == Dedup(Lookup(agg, f[k].0))
  {
    if n > 0 {
      assert DomainOrder[..n][..n - 1] == DomainOrder[..n - 1];
      assert Rank(DomainOrder[n - 1]) == n - 1;
      FixedAggregatedShape(agg, n - 1);
    }
  }

  /** Aggregated domains that are all fixed leave nothing for the second ordering loop. */
  lemma {:induction false} OtherAggregatedNone(agg: seq<Domain>)
    requires forall k :: 0 <= k < |agg| ==> agg[k].0 in DomainOrder
    ensures OtherAggregated(agg) == []
  {
    if agg != [] {
      OtherAggregatedNone(agg[..|agg| - 1]);
    }
  }

  /** The category path is taken when `skills` has no `domains` dictionary. */
  predicate CategoryPath(es: seq<Entry>) {
    !(Get(es, "domains").Some? && Get(es, "domains").value.Dict?)
  }

  /**
   * On the category path only the fixed domains appear, in order, each with the first
   * occurrences of exactly the entries of the categories mapped to it; every fixed domain some
   * category contributes an entry to is listed.
   */
  lemma CategoryDomainsSpec(es: seq<Entry>)
    requires CategoryPath(es)
    ensures var r := SkillDomains(Dict(es));
      Ordered(r) && WellFormed(r)
      && (forall k :: 0 <= k < |r| ==>
        (r[k].0 in DomainOrder && r[k].1 == Dedup(Gathered(es, r[k].0)) && Distinct(r[k].1)
         && forall x :: x in r[k].1 <==> x in Gathered(es, r[k].0)))
      && forall d :: d in DomainOrder && Gathered(es, d) != [] ==> d in Names(r)
  {
    CategoryResult(es);
    AggregatedDomains(Aggregate(es));
    AggregateSpec(es);
  }

  /** On the category path the result is the fixed domains of the aggregate and nothing else. */
  lemma CategoryResult(es: seq<Entry>)
    requires CategoryPath(es)
    ensures SkillDomains(Dict(es)) == FixedAggregated(Aggregate(es), DomainOrder)
  {
    var agg := Aggregate(es);
    AggregateSpec(es);
    assert forall k :: 0 <= k < |agg| ==> agg[k].0 == Names(agg)[k];
    OtherAggregatedNone(agg);
    assert SkillDomains(Dict(es)) == FixedAggregated(agg, DomainOrder) + [];
  }

  lemma AggregatedDomains(agg: seq<Domain>)
    ensures var r := FixedAggregated(agg, DomainOrder);
      Ordered(r) && WellFormed(r)
      && (forall k :: 0 <= k < |r| ==>
        (r[k].0 in DomainOrder && r[k].1 == Dedup(Lookup(agg, r[k].0)) && Distinct(r[k].1)
         && forall x :: x in r[k].1 <==> x in Lookup(agg, r[k].0)))
      && forall d :: d in DomainOrder && Lookup(agg, d) != [] ==> d in Names(r)
  {
    assert DomainOrder[..3] == DomainOrder;
    FixedAggregatedShape(agg, 3);
    FixedAggregatedPresent(agg, 3);
    var r := FixedAggregated(agg, DomainOrder);
    forall k | 0 <= k < |r| ensures Distinct(r[k].1) && forall x :: x in r[k].1 <==> x in Lookup(agg, r[k].0) {
      DedupSpec(Lookup(agg, r[k].0));
    }
    JoinShape(r, []);
    assert r + [] == r;
  }

  /**
   * On the explicit path the fixed domains come first, in order, then the other domains in
   * dictionary order, each with its normalized entries and none without entries; every fixed
   * domain with entries and every other item with entries is listed.
   */
  lemma ExplicitDomainsSpec(ed: seq<Entry>)
    requires UniqueKeys(ed)
    ensures var r := FixedExplicit(ed, DomainOrder) + OtherExplicit(ed);
      Ordered(r) && WellFormed(r)
      && (forall k :: 0 <= k < |r| && r[k].0 in DomainOrder ==> r[k].1 == Entries(GetOr(ed, r[k].0, List([]))))
      && (forall d :: d in DomainOrder && Entries(GetOr(ed, d, List([]))) != [] ==> d in Names(r))
      && forall i :: 0 <= i < |ed| && OtherItem(ed[i]) ==> (ed[i].key, Entries(ed[i].value)) in r
  {
    assert DomainOrder[..3] == DomainOrder;
    FixedExplicitShape(ed, 3);
    FixedExplicitPresent(ed, 3);
    var f, o := FixedExplicit(ed, DomainOrder), OtherExplicit(ed);
    assert FixedExplicit(ed, DomainOrder[..3]) == f;
    OtherExplicitShape(ed);
    JoinShape(f, o);
    NamesAppend(f, o);
    OtherExplicitInOrder(ed);
    forall i | 0 <= i < |ed| && OtherItem(ed[i]) ensures (ed[i].key, Entries(ed[i].value)) in f + o {
      var k :| 0 <= k < |OtherIndices(ed)| && OtherIndices(ed)[k] == i;
      assert (f + o)[|f| + k] == o[k];
    }
  }

  /** Whatever `skills` holds, the domains come out distinct, non-empty and in order. */
  lemma SkillDomainsShape(skills: Value)
    requires skills.Dict? && !CategoryPath(skills.entries) ==> UniqueKeys(Get(skills.entries, "domains").value.entries)
    ensures Ordered(SkillDomains(skills)) && WellFormed(SkillDomains(skills))
  {
    if skills.Dict? {
      if CategoryPath(skills.entries) {
        CategoryDomainsSpec(skills.entries);
      } else {
        ExplicitDomainsSpec(Get(skills.entries, "domains").value.entries);
      }
    }
  }

  // ---------------------------------------------------------------- the loops of build_skill_domains

  method ExplicitDomains(ed: seq<Entry>) returns (r: seq<Domain>)
    ensures r == FixedExplicit(ed, DomainOrder) + OtherExplicit(ed)
  {
    r := [];
    var i := 0;
    while i < |DomainOrder|
      invariant 0 <= i <= |DomainOrder|
      invariant r == FixedExplicit(ed, DomainOrder[..i])
    {
      var domain := DomainOrder[i];
      var entries := NormalizeEntries(GetOr(ed, domain, List([])));
      assert DomainOrder[..i + 1][..i] == DomainOrder[..i];
      if entries != [] {
        r := r + [(domain, entries)];
      }
      i := i + 1;
    }
    assert DomainOrder[..i] == DomainOrder;
    ghost var fixed := r;
    var j := 0;
    while j < |ed|
      invariant 0 <= j <= |ed|
      invariant r == fixed + OtherExplicit(ed[..j])
    {
      assert ed[..j + 1][..j] == ed[..j];
      if ed[j].key !in DomainOrder {
        var entries := NormalizeEntries(ed[j].value);
        if entries != [] {
          r := r + [(ed[j].key, entries)];
        }
      }
      j := j + 1;
    }
    assert ed[..j] == ed;
  }

  method AggregateCategories(es: seq<Entry>) returns (aggregated: seq<Domain>)
    ensures aggregated == Aggregate(es)
  {
    aggregated := [(DataEngineering, []), (Backend, []), (DevOps, [])];
    assert aggregated == Aggregate(es[..0]);
    var i := 0;
    while i < |es|
      invariant 0 <= i <= |es|
      invariant aggregated == Aggregate(es[..i])
    {
      assert es[..i + 1][..i] == es[..i];
      var category := es[i].key;
      if category != "domains" {
        var target := CategoryDomain(LowerAscii(category));
        var entries := NormalizeEntries(es[i].value);
        aggregated := AddTo(aggregated, target, entries);
      }
      i := i + 1;
    }
    assert es[..i] == es;
  }

  method OrderAggregated(aggregated: seq<Domain>) returns (r: seq<Domain>)
    ensures r == FixedAggregated(aggregated, DomainOrder) + OtherAggregated(aggregated)
  {
    r := [];
    var i := 0;
    while i < |DomainOrder|
      invariant 0 <= i <= |DomainOrder|
      invariant r == FixedAggregated(aggregated, DomainOrder[..i])
    {
      assert DomainOrder[..i + 1][..i] == DomainOrder[..i];
      var entries := Dedup(Lookup(aggregated, DomainOrder[i]));
      if entries != [] {
        r := r + [(DomainOrder[i], entries)];
      }
      i := i + 1;
    }
    assert DomainOrder[..i] == DomainOrder;
    ghost var fixed := r;
    var j := 0;
    while j < |aggregated|
      invariant 0 <= j <= |aggregated|
      invariant r == fixed + OtherAggregated(aggregated[..j])
    {
      assert aggregated[..j + 1][..j] == aggregated[..j];
      var (name, values) := aggregated[j];
      if name !in DomainOrder {
        var entries := Dedup(values);
        if entries != [] {
          r := r + [(name, entries)];
        }
      }
      j := j + 1;
    }
    assert aggregated[..j] == aggregated;
  }

  /** `build_skill_domains(skills)` */
  method BuildSkillDomains(skills: Value) returns (r: seq<Domain>)
    ensures r == SkillDomains(skills)
  {
    if !skills.Dict? {
      return [];
    }
    var explicit := Get(skills.entries, "domains");
    if explicit.Some? && explicit.value.Dict? {
      r := ExplicitDomains(explicit.value.entries);
    } else {
      var aggregated := AggregateCategories(skills.entries);
      r := OrderAggregated(aggregated);
    }
  }
}
