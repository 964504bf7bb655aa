/** The language breakdown both implementations compute: a table with one row
    per language name, holding the summed byte size of its edges and the
    colour of the first edge seen, ranked by size (largest first, ties in
    first-seen order) and cut to the top five. */
module LanguageTable {
  import opened StableSort

  datatype Option<T> = None | Some(value: T)

  /** One language edge of a repository: `{size, node: {name, color}}`; the
      colour is null for some languages. */
  datatype Edge = Edge(name: string, size: nat, color: Option<string>)

  /** A repository with its language edges. */
  datatype Repo = Repo(name: string, edges: seq<Edge>)

  /** One row of the table; `C` is how the row records a colour. */
  datatype LangStat<C> = LangStat(name: string, size: nat, color: C)

  /** The value the per-language dictionary maps a name to. */
  datatype Entry<C> = Entry(size: nat, color: C)

  /** How many languages the ranking keeps. */
  const TopCount: nat := 5

  /** The edges of all repositories, repository after repository. */
  function AllEdges(repos: seq<Repo>): seq<Edge> {
    if repos == [] then [] else AllEdges(repos[..|repos| - 1]) + repos[|repos| - 1].edges
  }

  /** The language names mentioned by the edges. */
  function Names(es: seq<Edge>): set<string> {
    if es == [] then {} else Names(es[..|es| - 1]) + {es[|es| - 1].name}
  }

  /** The summed size of the edges of language `name`. */
  function SizeOf(es: seq<Edge>, name: string): nat {
    if es == [] then 0
    else SizeOf(es[..|es| - 1], name) + (if es[|es| - 1].name == name then es[|es| - 1].size else 0)
  }

  /** The summed size of all edges. */
  function TotalSize(es: seq<Edge>): nat {
    if es == [] then 0 else TotalSize(es[..|es| - 1]) + es[|es| - 1].size
  }

  /** Every edge's language is among the names. */
  lemma {:induction false} NamesOfEdges(es: seq<Edge>)
    ensures forall j :: 0 <= j < |es| ==> es[j].name in Names(es)
  {
    if es != [] {
      var es' := es[..|es| - 1];
      NamesOfEdges(es');
      assert forall j :: 0 <= j < |es'| ==> es[j] == es'[j];
    }
  }

  /** The position of the first edge of language `name`: that edge has the
      name and no edge before it does. */
  function FirstIndex(es: seq<Edge>, name: string): (k: nat)
    requires name in Names(es)
    ensures k < |es| && es[k].name == name
    ensures forall j :: 0 <= j < k ==> es[j].name != name
  {
    var es' := es[..|es| - 1];
    if name in Names(es') then FirstIndex(es', name)
    else NamesOfEdges(es'); |es| - 1
  }

  /** The colour of the first edge of language `name`. */
  function FirstColor(es: seq<Edge>, name: string): Option<string>
    requires name in Names(es)
  {
    es[FirstIndex(es, name)].color
  }

  /** The position of the row for `name`, if the table has one. */
  function Find<C>(t: seq<LangStat<C>>, name: string): (r: Option<nat>)
    ensures r.Some? ==> r.value < |t| && t[r.value].name == name
    ensures r.None? ==> forall i :: 0 <= i < |t| ==> t[i].name != name
  {
    if t == [] then None
    else if t[0].name == name then Some(0)
    else match Find(t[1..], name)
      case Some(i) => Some(i + 1)
      case None => None
  }

  /** Folds one edge into the table: a known language grows by the edge's
      size and keeps its colour; a new one is appended with the edge's size
      and the edge's colour as `paint` records it. */
  function Add<C>(t: seq<LangStat<C>>, e: Edge, paint: Option<string> -> C): seq<LangStat<C>> {
    match Find(t, e.name)
    case Some(i) => t[i := t[i].(size := t[i].size + e.size)]
    case None => t + [LangStat(e.name, e.size, paint(e.color))]
  }

  /** The table after folding in all edges in order. */
  function Tally<C>(es: seq<Edge>, paint: Option<string> -> C): seq<LangStat<C>> {
    if es == [] then [] else Add(Tally(es[..|es| - 1], paint), es[|es| - 1], paint)
  }

  lemma TallyAppend<C>(es: seq<Edge>, e: Edge, paint: Option<string> -> C)
    ensures Tally(es + [e], paint) == Add(Tally(es, paint), e, paint)
  {
    assert (es + [e])[..|es|] == es;
  }

  lemma TotalSizeAppend(es: seq<Edge>, e: Edge)
    ensures TotalSize(es + [e]) == TotalSize(es) + e.size
  {
    assert (es + [e])[..|es|] == es;
  }

  /** The summed size of the rows of a table. */
  function SumSizes<C>(t: seq<LangStat<C>>): nat {
    if t == [] then 0 else SumSizes(t[..|t| - 1]) + t[|t| - 1].size
  }

  /** The sort key that orders rows by size, largest first. */
  function SizeKey<C>(x: LangStat<C>): int {
    -(x.size as int)
  }

  /** The rows by size, largest first; equal sizes keep their table order. */
  function Rank<C>(t: seq<LangStat<C>>): seq<LangStat<C>> {
    SortBy(t, SizeKey)
  }

  /** The first `TopCount` rows (all of them when there are fewer). */
  function Top<C>(s: seq<LangStat<C>>): seq<LangStat<C>> {
    if |s| <= TopCount then s else s[..TopCount]
  }

  /** Row names are pairwise distinct. */
  ghost predicate DistinctNames<C>(t: seq<LangStat<C>>) {
    forall i, j :: 0 <= i < j < |t| ==> t[i].name != t[j].name
  }

  lemma {:induction false} SizeOfAbsent(es: seq<Edge>, name: string)
    requires name !in Names(es)
    ensures SizeOf(es, name) == 0
  {
    if es != [] {
      SizeOfAbsent(es[..|es| - 1], name);
    }
  }

  /** One language's size is part of the total. */
  lemma {:induction false} SizeOfAtMostTotal(es: seq<Edge>, name: string)
    ensures SizeOf(es, name) <= TotalSize(es)
  {
    if es != [] {
      SizeOfAtMostTotal(es[..|es| - 1], name);
    }
  }

  /** No language gets two rows. */
  lemma {:induction false} TallyDistinct<C>(es: seq<Edge>, paint: Option<string> -> C)
    ensures DistinctNames(Tally(es, paint))
  {
    if es != [] {
      TallyDistinct(es[..|es| - 1], paint);
    }
  }

  /** The table has a row for exactly the languages the edges mention. */
  lemma {:induction false} TallyNames<C>(es: seq<Edge>, paint: Option<string> -> C)
    ensures forall i :: 0 <= i < |Tally(es, paint)| ==> Tally(es, paint)[i].name in Names(es)
    ensures forall n :: n in Names(es) <==> Find(Tally(es, paint), n).Some?
  {
    if es != [] {
      var es', e := es[..|es| - 1], es[|es| - 1];
      TallyNames(es', paint);
      var t', t := Tally(es', paint), Tally(es, paint);
      forall n | n in Names(es)
        ensures Find(t, n).Some?
      {
        if n == e.name {
          match Find(t', e.name)
          case Some(k) => assert t[k].name == n;
          case None => assert t[|t'|].name == n;
        } else {
          var i := Find(t', n).value;
          assert t[i].name == n;
        }
      }
    }
  }

  /** Every row's size is the summed size of that language's edges. */
  lemma {:induction false} TallySizes<C>(es: seq<Edge>, paint: Option<string> -> C)
    ensures forall i :: 0 <= i < |Tally(es, paint)| ==> Tally(es, paint)[i].size == SizeOf(es, Tally(es, paint)[i].name)
  {
    if es != [] {
      var es', e := es[..|es| - 1], es[|es| - 1];
      TallySizes(es', paint);
      TallyDistinct(es', paint);
      TallyNames(es', paint);
      if e.name !in Names(es') {
        SizeOfAbsent(es', e.name);
      }
    }
  }

  /** Every row's colour is the colour of its language's first edge. */
  lemma {:induction false} TallyColors<C>(es: seq<Edge>, paint: Option<string> -> C)
    ensures forall i :: 0 <= i < |Tally(es, paint)| ==>
      Tally(es, paint)[i].name in Names(es) && Tally(es, paint)[i].color == paint(FirstColor(es, Tally(es, paint)[i].name))
  {
    TallyNames(es, paint);
    if es != [] {
      var es', e := es[..|es| - 1], es[|es| - 1];
      TallyColors(es', paint);
      TallyNames(es', paint);
      var t', t := Tally(es', paint), Tally(es, paint);
      forall i | 0 <= i < |t|
        ensures t[i].color == paint(FirstColor(es, t[i].name))
      {
        if i < |t'| {
          assert t[i].name == t'[i].name && t[i].color == t'[i].color;
          assert es[..|es| - 1] == es';
        }
      }
    }
  }

  /** Appending an edge moves no language's first edge. */
  lemma FirstIndexOfPrefix(es: seq<Edge>, name: string)
    requires es != [] && name in Names(es[..|es| - 1])
    ensures name in Names(es) && FirstIndex(es, name) == FirstIndex(es[..|es| - 1], name)
  {
  }

  /** Rows appear in the order their languages were first seen. */
  lemma {:induction false} TallyFirstSeenOrder<C>(es: seq<Edge>, paint: Option<string> -> C)
    ensures forall i :: 0 <= i < |Tally(es, paint)| ==> Tally(es, paint)[i].name in Names(es)
    ensures forall i, j :: 0 <= i < j < |Tally(es, paint)| ==>
      FirstIndex(es, Tally(es, paint)[i].name) < FirstIndex(es, Tally(es, paint)[j].name)
  {
    if es != [] {
      var es', e := es[..|es| - 1], es[|es| - 1];
      TallyFirstSeenOrder(es', paint);
      TallyNames(es', paint);
      var t', t := Tally(es', paint), Tally(es, paint);
      forall i | 0 <= i < |t'|
        ensures t[i].name == t'[i].name && FirstIndex(es, t[i].name) == FirstIndex(es', t'[i].name) < |es'|
      {
        FirstIndexOfPrefix(es, t'[i].name);
      }
      match Find(t', e.name)
      case Some(k) =>
        assert |t| == |t'|;
      case None =>
        assert |t| == |t'| + 1 && t[|t'|].name == e.name;
        assert e.name !in Names(es');
        assert FirstIndex(es, e.name) == |es'|;
    }
  }

  lemma {:induction false} SumSizesUpdate<C>(t: seq<LangStat<C>>, i: nat, x: LangStat<C>)
    requires i < |t|
    ensures SumSizes(t[i := x]) + t[i].size == SumSizes(t) + x.size
  {
    var t' := t[..|t| - 1];
    if i < |t| - 1 {
      assert t[i := x][..|t| - 1] == t'[i := x];
      SumSizesUpdate(t', i, x);
    } else {
      assert t[i := x][..|t| - 1] == t';
    }
  }

  /** Folding in an edge adds its size to the rows' total. */
  lemma AddTotal<C>(t: seq<LangStat<C>>, e: Edge, paint: Option<string> -> C)
    ensures SumSizes(Add(t, e, paint)) == SumSizes(t) + e.size
  {
    match Find(t, e.name)
    case Some(i) =>
      var x := t[i].(size := t[i].size + e.size);
      assert Add(t, e, paint) == t[i := x];
      SumSizesUpdate(t, i, x);
    case None =>
      var x := LangStat(e.name, e.size, paint(e.color));
      assert Add(t, e, paint) == t + [x];
      assert (t + [x])[..|t|] == t;
  }

  /** The rows together hold the total size of all edges. */
  lemma {:induction false} TallyTotal<C>(es: seq<Edge>, paint: Option<string> -> C)
    ensures SumSizes(Tally(es, paint)) == TotalSize(es)
  {
    if es != [] {
      var es', e := es[..|es| - 1], es[|es| - 1];
      TallyTotal(es', paint);
      AddTotal(Tally(es', paint), e, paint);
    }
  }

  /** The table is empty exactly when there are no edges. */
  lemma {:induction false} TallyEmpty<C>(es: seq<Edge>, paint: Option<string> -> C)
    ensures Tally(es, paint) == [] <==> es == []
  {
    if es != [] {
      var t' := Tally(es[..|es| - 1], paint);
      match Find(t', es[|es| - 1].name)
      case Some(i) =>
      case None =>
    }
  }

  /** The total is zero exactly when every edge has size zero. */
  lemma {:induction false} TotalSizeZero(es: seq<Edge>)
    ensures TotalSize(es) == 0 <==> forall k :: 0 <= k < |es| ==> es[k].size == 0
  {
    if es != [] {
      TotalSizeZero(es[..|es| - 1]);
    }
  }

  /** The ranking keeps `TopCount` rows, or all of them when there are
      fewer, largest first. */
  lemma TopOfRankOrdered<C>(t: seq<LangStat<C>>)
    ensures |Top(Rank(t))| == if |t| <= TopCount then |t| else TopCount
    ensures forall i, j :: 0 <= i < j < |Top(Rank(t))| ==> Top(Rank(t))[i].size >= Top(Rank(t))[j].size
  {
    var s := Rank(t);
    SortBySorted(t, SizeKey);
    forall i, j | 0 <= i < j < |Top(s)|
      ensures Top(s)[i].size >= Top(s)[j].size
    {
      assert Top(s)[i] == s[i] && Top(s)[j] == s[j];
      assert SizeKey(s[i]) <= SizeKey(s[j]);
    }
  }

  /** Every ranked row is a row of the table, and no language is ranked twice. */
  lemma TopOfRankRows<C>(t: seq<LangStat<C>>)
    requires DistinctNames(t)
    ensures forall i :: 0 <= i < |Top(Rank(t))| ==> Top(Rank(t))[i] in t
    ensures DistinctNames(Top(Rank(t)))
  {
    var s := Rank(t);
    SortByKeepsDistinct(t, SizeKey, (x: LangStat<C>) => x.name);
    assert forall i :: 0 <= i < |Top(s)| ==> Top(s)[i] == s[i];
  }

  /** No row left out of the ranking is larger than a row kept. */
  lemma TopOfRankIsTop<C>(t: seq<LangStat<C>>)
    ensures forall x, y :: x in t && x !in Top(Rank(t)) && y in Top(Rank(t)) ==> x.size <= y.size
  {
    var s := Rank(t);
    var r := Top(s);
    SortBySorted(t, SizeKey);
    SortByPermutes(t, SizeKey);
    forall x, y | x in t && x !in r && y in r
      ensures x.size <= y.size
    {
      assert x in multiset(s);
      var k :| 0 <= k < |s| && s[k] == x;
      var m :| 0 <= m < |r| && r[m] == y;
      assert r[m] == s[m];
      assert k >= |r|;
      assert SizeKey(s[m]) <= SizeKey(s[k]);
    }
  }

  /** One pair of rows across the cut of a sorted sequence whose ties are
      in increasing `ord`. */
  lemma TieAcrossCut<C>(s: seq<LangStat<C>>, ord: LangStat<C> -> int, x: LangStat<C>, y: LangStat<C>)
    requires TiesOrderedBy(s, SizeKey, ord)
    requires x in s && x !in Top(s) && y in Top(s) && x.size == y.size
    ensures ord(y) < ord(x)
  {
    var k :| 0 <= k < |s| && s[k] == x;
    var m :| 0 <= m < |Top(s)| && Top(s)[m] == y;
    assert forall i :: 0 <= i < |Top(s)| ==> Top(s)[i] == s[i];
    assert SizeKey(s[m]) == SizeKey(s[k]);
  }

  /** A tie at the cut goes to the earlier row: for any rank that increases
      along the table, a row left out that is as large as a row kept comes
      later than it. */
  lemma TieAtCutGoesToEarlier<C>(t: seq<LangStat<C>>, ord: LangStat<C> -> int)
    requires forall i, j :: 0 <= i < j < |t| ==> ord(t[i]) < ord(t[j])
    ensures forall x, y :: x in t && x !in Top(Rank(t)) && y in Top(Rank(t)) && x.size == y.size ==> ord(y) < ord(x)
  {
    var s := Rank(t);
    SortByPermutes(t, SizeKey);
    SortByKeepsTieOrder(t, SizeKey, ord);
    forall x, y | x in t && x !in Top(s) && y in Top(s) && x.size == y.size
      ensures ord(y) < ord(x)
    {
      assert x in multiset(s);
      TieAcrossCut(s, ord, x, y);
    }
  }

  /** The rank of a row by the first edge of its language. */
  function SeenRank<C>(es: seq<Edge>, x: LangStat<C>): int {
    if x.name in Names(es) then FirstIndex(es, x.name) as int else -1
  }

  /** A row of the table left out of the ranking that is as large as a
      ranked row has a later first-seen rank. */
  lemma TallyCutBySeenRank<C>(es: seq<Edge>, paint: Option<string> -> C)
    ensures var t := Tally(es, paint);
      forall x, y :: x in t && x !in Top(Rank(t)) && y in Top(Rank(t)) && x.size == y.size ==> SeenRank(es, y) < SeenRank(es, x)
  {
    var t := Tally(es, paint);
    var ord := (x: LangStat<C>) => SeenRank(es, x);
    TallyFirstSeenOrder(es, paint);
    forall i, j | 0 <= i < j < |t|
      ensures ord(t[i]) < ord(t[j])
    {
      assert t[i].name in Names(es) && t[j].name in Names(es);
    }
    TieAtCutGoesToEarlier(t, ord);
  }

  /** When languages tie at the cut, those seen first are kept: a language
      left out whose size equals a kept row's was first seen after it. */
  lemma RankCutKeepsFirstSeen<C>(es: seq<Edge>, paint: Option<string> -> C, r: seq<LangStat<C>>)
    requires r == Top(Rank(Tally(es, paint)))
    ensures forall n :: n in Names(es) && (forall i :: 0 <= i < |r| ==> r[i].name != n) ==>
      forall i :: 0 <= i < |r| && r[i].size == SizeOf(es, n) ==>
        r[i].name in Names(es) && FirstIndex(es, r[i].name) < FirstIndex(es, n)
  {
    var t := Tally(es, paint);
    TallyCutBySeenRank(es, paint);
    TallyNames(es, paint);
    TallySizes(es, paint);
    forall n, i | n in Names(es) && (forall i :: 0 <= i < |r| ==> r[i].name != n) && 0 <= i < |r| && r[i].size == SizeOf(es, n)
      ensures r[i].name in Names(es) && FirstIndex(es, r[i].name) < FirstIndex(es, n)
    {
      var k := Find(t, n).value;
      assert r[i] == Rank(t)[i];
      var j :| 0 <= j < |t| && t[j] == r[i];
      assert t[j].name in Names(es) && t[k].size == SizeOf(es, n);
      assert t[k] in t && t[k] !in r && r[i] in r;
      assert SeenRank(es, r[i]) < SeenRank(es, t[k]);
    }
  }

  /** The ranking is cut only when there are more languages than it keeps:
      it has `TopCount` rows or every language has a row. */
  lemma RankCoversAllOrTop<C>(es: seq<Edge>, paint: Option<string> -> C)
    ensures |Top(Rank(Tally(es, paint)))| == TopCount ||
      forall n :: n in Names(es) ==> exists i :: 0 <= i < |Top(Rank(Tally(es, paint)))| && Top(Rank(Tally(es, paint)))[i].name == n
  {
    var t := Tally(es, paint);
    var s := Rank(t);
    TopOfRankOrdered(t);
    if |t| <= TopCount {
      SortByPermutes(t, SizeKey);
      TallyNames(es, paint);
      forall n | n in Names(es)
        ensures exists i :: 0 <= i < |s| && s[i].name == n
      {
        var k := Find(t, n).value;
        assert t[k] in multiset(s);
        var m :| 0 <= m < |s| && s[m] == t[k];
      }
    }
  }

  /** Rows of equal size are ranked in the order their languages were
      first seen. */
  lemma RankKeepsFirstSeenOrder<C>(es: seq<Edge>, paint: Option<string> -> C, r: seq<LangStat<C>>)
    requires r == Top(Rank(Tally(es, paint)))
    ensures forall i :: 0 <= i < |r| ==> r[i].name in Names(es)
    ensures forall i, j :: 0 <= i < j < |r| && r[i].size == r[j].size ==>
      FirstIndex(es, r[i].name) < FirstIndex(es, r[j].name)
  {
    var t := Tally(es, paint);
    var s := Rank(t);
    var ord := (x: LangStat<C>) => SeenRank(es, x);
    TallyFirstSeenOrder(es, paint);
    forall i, j | 0 <= i < j < |t|
      ensures ord(t[i]) < ord(t[j])
    {
      assert t[i].name in Names(es) && t[j].name in Names(es);
    }
    SortByKeepsTieOrder(t, SizeKey, ord);
    forall i | 0 <= i < |r|
      ensures r[i].name in Names(es)
    {
      assert r[i] == s[i];
      var m :| 0 <= m < |t| && t[m] == s[i];
    }
    forall i, j | 0 <= i < j < |r| && r[i].size == r[j].size
      ensures FirstIndex(es, r[i].name) < FirstIndex(es, r[j].name)
    {
      assert r[i] == s[i] && r[j] == s[j];
      assert SizeKey(s[i]) == SizeKey(s[j]);
      assert ord(s[i]) < ord(s[j]);
    }
  }

  /** The dictionary `stats` with insertion order `order` holds the table `t`. */
  ghost predicate Represents<C>(stats: map<string, Entry<C>>, order: seq<string>, t: seq<LangStat<C>>) {
    |order| == |t| &&
    (forall i :: 0 <= i < |t| ==> order[i] == t[i].name && order[i] in stats && stats[order[i]] == Entry(t[i].size, t[i].color)) &&
    (forall n :: n in stats ==> n in order)
  }

  /** A new language: the entry created with size zero and the edge's colour,
      then grown by the edge's size, is the row the fold appends. */
  lemma NewNameRepresented<C>(stats: map<string, Entry<C>>, order: seq<string>, t: seq<LangStat<C>>, e: Edge, paint: Option<string> -> C)
    requires Represents(stats, order, t) && e.name !in stats
    ensures var created := stats[e.name := Entry(0, paint(e.color))];
      Represents(created[e.name := created[e.name].(size := created[e.name].size + e.size)], order + [e.name], Add(t, e, paint))
  {
    assert Find(t, e.name).None?;
  }

  /** A known language: growing its entry by the edge's size is growing its row. */
  lemma KnownNameRepresented<C>(stats: map<string, Entry<C>>, order: seq<string>, t: seq<LangStat<C>>, e: Edge, paint: Option<string> -> C)
    requires Represents(stats, order, t) && DistinctNames(t) && e.name in stats
    ensures Represents(stats[e.name := stats[e.name].(size := stats[e.name].size + e.size)], order, Add(t, e, paint))
  {
    var k :| 0 <= k < |order| && order[k] == e.name;
    assert Find(t, e.name).Some?;
  }

  /** The table with every row's colour passed through `f`. */
  function Recolored<C, D>(t: seq<LangStat<C>>, f: C -> D): (r: seq<LangStat<D>>)
    ensures |r| == |t|
    ensures forall i :: 0 <= i < |t| ==> r[i] == LangStat(t[i].name, t[i].size, f(t[i].color))
  {
    if t == [] then [] else Recolored(t[..|t| - 1], f) + [LangStat(t[|t| - 1].name, t[|t| - 1].size, f(t[|t| - 1].color))]
  }

  lemma RecoloredAppend<C, D>(t: seq<LangStat<C>>, x: LangStat<C>, f: C -> D)
    ensures Recolored(t + [x], f) == Recolored(t, f) + [LangStat(x.name, x.size, f(x.color))]
  {
  }

  /** Recolouring keeps the names, so it keeps where each name is found. */
  lemma {:induction false} FindRecolored<C, D>(t: seq<LangStat<C>>, f: C -> D, name: string)
    ensures Find(Recolored(t, f), name) == Find(t, name)
  {
    if t != [] {
      assert Recolored(t, f)[1..] == Recolored(t[1..], f);
      FindRecolored(t[1..], f, name);
    }
  }

  /** Folding an edge into a recoloured table is recolouring the folded table,
      when the new row's colour `q` is the old colour `p` passed through `f`. */
  lemma AddRecolored<C, D>(t: seq<LangStat<C>>, e: Edge, p: Option<string> -> C, q: Option<string> -> D, f: C -> D)
    requires forall c :: q(c) == f(p(c))
    ensures Add(Recolored(t, f), e, q) == Recolored(Add(t, e, p), f)
  {
    FindRecolored(t, f, e.name);
    match Find(t, e.name)
    case Some(i) =>
    case None =>
      RecoloredAppend(t, LangStat(e.name, e.size, p(e.color)), f);
  }

  /** Two tables built from the same edges differ only in how they record
      colours: the one recording `q` is the one recording `p` recoloured. */
  lemma {:induction false} TallyRecolored<C, D>(es: seq<Edge>, p: Option<string> -> C, q: Option<string> -> D, f: C -> D)
    requires forall c :: q(c) == f(p(c))
    ensures Tally(es, q) == Recolored(Tally(es, p), f)
  {
    if es != [] {
      TallyRecolored(es[..|es| - 1], p, q, f);
      AddRecolored(Tally(es[..|es| - 1], p), es[|es| - 1], p, q, f);
    }
  }

  lemma {:induction false} InsertRecolored<C, D>(s: seq<LangStat<C>>, x: LangStat<C>, f: C -> D)
    ensures Insert(Recolored(s, f), LangStat(x.name, x.size, f(x.color)), SizeKey) == Recolored(Insert(s, x, SizeKey), f)
  {
    if s != [] {
      var s', last := s[..|s| - 1], s[|s| - 1];
      assert Recolored(s, f)[..|s| - 1] == Recolored(s', f);
      if SizeKey(last) <= SizeKey(x) {
        RecoloredAppend(s, x, f);
      } else {
        InsertRecolored(s', x, f);
        RecoloredAppend(Insert(s', x, SizeKey), last, f);
      }
    }
  }

  /** Ranking looks only at sizes, so it commutes with recolouring. */
  lemma {:induction false} RankRecolored<C, D>(t: seq<LangStat<C>>, f: C -> D)
    ensures Rank(Recolored(t, f)) == Recolored(Rank(t), f)
  {
    if t != [] {
      var t', last := t[..|t| - 1], t[|t| - 1];
      assert Recolored(t, f)[..|t| - 1] == Recolored(t', f);
      RankRecolored(t', f);
      InsertRecolored(Rank(t'), last, f);
    }
  }

  lemma TopRecolored<C, D>(s: seq<LangStat<C>>, f: C -> D)
    ensures Top(Recolored(s, f)) == Recolored(Top(s), f)
  {
  }
}
