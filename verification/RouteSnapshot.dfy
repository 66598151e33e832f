/** The compiled route snapshot: a trie of path segments on the heap, and the proof that
    looking a request up in it gives the answer of the linear scan.

    The source's node lists hold pointers to rules; here they hold indices into `rules`.
  */
module RouteSnapshots {
  import opened PathSegments
  import opened RouteRules
  import opened RouteTable

  class TrieNode {
    var children: map<string, TrieNode>
    var rules: seq<nat>
    // the segments on the way from the root to this node
    ghost const path: seq<string>

    constructor (ghost path: seq<string>)
      ensures children == map[] && rules == [] && this.path == path
    {
      children := map[];
      rules := [];
      this.path := path;
    }
  }

  // ----- lists of rule indices ------------------------------------------------------------------

  /** The indices below `n` of the rules with exactly these segments, in the order of the rules. */
  function RulesAt(table: seq<RouteRule>, n: nat, segments: seq<string>): seq<nat>
    requires n <= |table|
  {
    if n == 0 then []
    else RulesAt(table, n - 1, segments) + if RuleSegments(table[n - 1]) == segments then [n - 1] else []
  }

  ghost predicate NoDuplicates(s: seq<nat>) {
    forall i, j | 0 <= i < j < |s| :: s[i] != s[j]
  }

  ghost predicate InTable(table: seq<RouteRule>, s: seq<nat>) {
    forall i | 0 <= i < |s| :: s[i] < |table|
  }

  ghost predicate SortedByPriority(table: seq<RouteRule>, s: seq<nat>)
    requires InTable(table, s)
  {
    forall i, j | 0 <= i < j < |s| :: table[s[i]].priority <= table[s[j]].priority
  }

  /** What `std::sort` promises: the same elements in order of priority, ties in any order. */
  ghost predicate IsSorting(table: seq<RouteRule>, before: seq<nat>, after: seq<nat>) {
    multiset(after) == multiset(before) && InTable(table, after) && SortedByPriority(table, after)
  }

  lemma {:induction false} RulesAtMembers(table: seq<RouteRule>, n: nat, segments: seq<string>)
    requires n <= |table|
    ensures forall i: nat :: i in RulesAt(table, n, segments) <==> i < n && RuleSegments(table[i]) == segments
    ensures NoDuplicates(RulesAt(table, n, segments))
  {
    if n > 0 {
      RulesAtMembers(table, n - 1, segments);
    }
  }

  lemma {:induction false} SameElements(a: seq<nat>, b: seq<nat>)
    requires multiset(a) == multiset(b)
    ensures forall i :: i in a <==> i in b
    ensures NoDuplicates(b) ==> NoDuplicates(a)
  {
    forall i
      ensures i in a <==> i in b
    {
      assert i in a <==> i in multiset(a);
      assert i in b <==> i in multiset(b);
    }
    if NoDuplicates(b) {
      DistinctMeansOnce(b);
      OnceMeansDistinct(a);
    }
  }

  lemma {:induction false} DistinctMeansOnce(s: seq<nat>)
    requires NoDuplicates(s)
    ensures forall x :: multiset(s)[x] <= 1
  {
    if s != [] {
      var n := |s| - 1;
      DistinctMeansOnce(s[..n]);
      assert s == s[..n] + [s[n]];
      assert s[n] !in s[..n];
      assert s[n] !in multiset(s[..n]);
    }
  }

  lemma {:induction false} OnceMeansDistinct(s: seq<nat>)
    requires forall x :: multiset(s)[x] <= 1
    ensures NoDuplicates(s)
  {
    if s != [] {
      var n := |s| - 1;
      assert s == s[..n] + [s[n]];
      forall x ensures multiset(s[..n])[x] <= 1 {
        assert multiset(s)[x] == multiset(s[..n])[x] + multiset([s[n]])[x];
      }
      OnceMeansDistinct(s[..n]);
      assert multiset(s)[s[n]] == multiset(s[..n])[s[n]] + multiset([s[n]])[s[n]];
      assert s[n] in s[..n] <==> s[n] in multiset(s[..n]);
    }
  }

  method SortByPriority(table: seq<RouteRule>, s: seq<nat>) returns (sorted: seq<nat>)
    requires InTable(table, s)
    ensures IsSorting(table, s, sorted)
  {
    sorted := [];
    var k := 0;
    assert s[..0] == [];
    while k < |s|
      invariant k <= |s|
      invariant IsSorting(table, s[..k], sorted)
    {
      var i := PlaceInOrder(table, sorted, s[k]);
      InsertKeepsSorting(table, s[..k], sorted, s[k], i);
      sorted := sorted[..i] + [s[k]] + sorted[i..];
      assert s[..k + 1] == s[..k] + [s[k]];
      k := k + 1;
    }
    assert s[..k] == s;
  }

  method PlaceInOrder(table: seq<RouteRule>, sorted: seq<nat>, x: nat) returns (i: nat)
    requires InTable(table, sorted) && x < |table|
    ensures i <= |sorted|
    ensures i > 0 ==> table[sorted[i - 1]].priority <= table[x].priority
    ensures forall j | i <= j < |sorted| :: table[x].priority < table[sorted[j]].priority
  {
    i := |sorted|;
    while i > 0 && table[x].priority < table[sorted[i - 1]].priority
      invariant i <= |sorted|
      invariant forall j | i <= j < |sorted| :: table[x].priority < table[sorted[j]].priority
    {
      i := i - 1;
    }
  }

  lemma InsertKeepsSorting(table: seq<RouteRule>, before: seq<nat>, sorted: seq<nat>, x: nat, i: nat)
    requires IsSorting(table, before, sorted) && x < |table| && i <= |sorted|
    requires i > 0 ==> table[sorted[i - 1]].priority <= table[x].priority
    requires forall j | i <= j < |sorted| :: table[x].priority < table[sorted[j]].priority
    ensures IsSorting(table, before + [x], sorted[..i] + [x] + sorted[i..])
  {
    assert sorted == sorted[..i] + sorted[i..];
    assert multiset(sorted[..i] + [x] + sorted[i..]) == multiset(sorted) + multiset{x};
    InsertKeepsOrder(table, sorted, x, i);
  }

  lemma InsertKeepsOrder(table: seq<RouteRule>, sorted: seq<nat>, x: nat, i: nat)
    requires InTable(table, sorted) && SortedByPriority(table, sorted) && x < |table| && i <= |sorted|
    requires i > 0 ==> table[sorted[i - 1]].priority <= table[x].priority
    requires forall j | i <= j < |sorted| :: table[x].priority < table[sorted[j]].priority
    ensures InTable(table, sorted[..i] + [x] + sorted[i..])
    ensures SortedByPriority(table, sorted[..i] + [x] + sorted[i..])
  {
    var after := sorted[..i] + [x] + sorted[i..];
    forall k | 0 <= k < |after|
      ensures after[k] < |table|
      ensures k < i ==> after[k] == sorted[k] && table[after[k]].priority <= table[x].priority
      ensures k > i ==> after[k] == sorted[k - 1] && table[x].priority <= table[after[k]].priority
    {
    }
  }

  // ----- lists of segments as paths through the trie -----------------------------------------

  function Extend(path: seq<string>, segment: string): seq<string> {
    path + [segment]
  }

  ghost predicate PrefixClosed(paths: set<seq<string>>) {
    forall p, segment {:trigger Extend(p, segment)} | Extend(p, segment) in paths :: p in paths
  }

  lemma {:induction false} PrefixesAreIn(paths: set<seq<string>>, p: seq<string>, k: nat)
    requires PrefixClosed(paths) && p in paths && k <= |p|
    ensures p[..k] in paths
    decreases |p|
  {
    if k < |p| {
      var shorter := p[..|p| - 1];
      assert p == Extend(shorter, p[|p| - 1]);
      PrefixesAreIn(paths, shorter, k);
      assert shorter[..k] == p[..k];
    } else {
      assert p[..k] == p;
    }
  }

  ghost predicate NoRuleAt(table: seq<RouteRule>, segments: seq<string>) {
    forall i | 0 <= i < |table| :: RuleSegments(table[i]) != segments
  }

  /** No rule sits on a prefix of the path that is longer than `k` segments. */
  ghost predicate NoRuleBeyond(table: seq<RouteRule>, path: string, k: nat) {
    forall j | k < j <= |Segments(path)| :: NoRuleAt(table, Segments(path)[..j])
  }

  /** If the rules at one prefix are the deepest ones, they are the candidates. */
  lemma DeepestRulesAreCandidates(table: seq<RouteRule>, path: string, k: nat)
    requires 1 <= k <= |Segments(path)| && NoRuleBeyond(table, path, k)
    requires !NoRuleAt(table, Segments(path)[..k])
    ensures forall i: nat ::
              IsCandidate(table, path, i) <==> i < |table| && RuleSegments(table[i]) == Segments(path)[..k]
  {
    var deepest :| 0 <= deepest < |table| && RuleSegments(table[deepest]) == Segments(path)[..k];
    forall j | 0 <= j < |table| && OnPath(table[j], path)
      ensures |RuleSegments(table[j])| <= k
    {
      assert Segments(path)[..|RuleSegments(table[j])|] == RuleSegments(table[j]);
    }
    forall i: nat | IsCandidate(table, path, i)
      ensures RuleSegments(table[i]) == Segments(path)[..k]
    {
      assert OnPath(table[deepest], path);
      assert Segments(path)[..|RuleSegments(table[i])|] == RuleSegments(table[i]);
    }
  }

  lemma NoRulesNoCandidates(table: seq<RouteRule>, path: string)
    requires Segments(path) != [] && NoRuleBeyond(table, path, 0)
    ensures forall i: nat :: !IsCandidate(table, path, i)
  {
    forall i: nat | i < |table|
      ensures !OnPath(table[i], path)
    {
      var k := |RuleSegments(table[i])|;
      assert 0 < k <= |Segments(path)| ==> NoRuleAt(table, Segments(path)[..k]);
    }
  }

  /** The nodes form a tree: one node a path, and a child for each path one segment longer. */
  ghost predicate TreeShape(index: map<seq<string>, TrieNode>, children: map<seq<string>, map<string, TrieNode>>,
                            root: TrieNode?) {
    && children.Keys == index.Keys
    && [] in index && root == index[[]]
    && (forall p | p in index :: index[p].path == p)
    && PrefixClosed(index.Keys)
    && (forall p, segment {:trigger Extend(p, segment)} | p in index ::
          segment in children[p] <==> Extend(p, segment) in index)
    && (forall p, segment {:trigger Extend(p, segment)} | p in index && segment in children[p] ::
          children[p][segment] == index[Extend(p, segment)])
  }

  lemma ShapeGrows(index: map<seq<string>, TrieNode>, children: map<seq<string>, map<string, TrieNode>>,
                   root: TrieNode?,
                   here: seq<string>, segment: string, child: TrieNode)
    requires TreeShape(index, children, root)
    requires here in index && segment !in children[here] && child.path == Extend(here, segment)
    ensures var path := Extend(here, segment);
            TreeShape(index[path := child], children[path := map[]][here := children[here][segment := child]], root)
  {
    var path := Extend(here, segment);
    var index' := index[path := child];
    ExtendInjective();
    assert path !in index;
    forall p, s | Extend(p, s) in index'.Keys
      ensures p in index'.Keys
    {
    }
    forall s ensures Extend(path, s) !in index' {
      assert Extend(path, s) in index.Keys ==> path in index.Keys;
    }
  }

  /** The first `n` rules are listed, each at its own segments. */
  ghost predicate ListsHold(table: seq<RouteRule>, n: nat, lists: map<seq<string>, seq<nat>>) {
    && n <= |table|
    && (forall p {:trigger RulesAt(table, n, p)} | p in lists :: lists[p] == RulesAt(table, n, p))
    && (forall i {:trigger RuleSegments(table[i])} | 0 <= i < n :: RuleSegments(table[i]) in lists)
  }

  lemma ListsGrow(table: seq<RouteRule>, n: nat, lists: map<seq<string>, seq<nat>>)
    requires n < |table| && ListsHold(table, n, lists) && RuleSegments(table[n]) in lists
    ensures var path := RuleSegments(table[n]);
            ListsHold(table, n + 1, lists[path := lists[path] + [n]])
  {
    var path := RuleSegments(table[n]);
    forall p | p in lists
      ensures lists[path := lists[path] + [n]][p] == RulesAt(table, n + 1, p)
    {
      assert lists[p] == RulesAt(table, n, p);
    }
  }

  /** Some paths were added, with nothing listed at them. */
  ghost predicate GainedPaths(before: map<seq<string>, seq<nat>>, after: map<seq<string>, seq<nat>>) {
    && before.Keys <= after.Keys
    && forall p | p in after :: after[p] == if p in before then before[p] else []
  }

  lemma GainedTransitive(one: map<seq<string>, seq<nat>>, two: map<seq<string>, seq<nat>>,
                         three: map<seq<string>, seq<nat>>)
    requires GainedPaths(one, two) && GainedPaths(two, three)
    ensures GainedPaths(one, three)
  {
  }

  lemma ListsGainPaths(table: seq<RouteRule>, n: nat, before: map<seq<string>, seq<nat>>,
                       after: map<seq<string>, seq<nat>>)
    requires ListsHold(table, n, before) && GainedPaths(before, after)
    ensures ListsHold(table, n, after)
  {
    forall p | p in after && p !in before
      ensures RulesAt(table, n, p) == []
    {
      NothingAt(table, n, p);
    }
  }

  /** All rules are listed, and every list is sorted. */
  ghost predicate ListsCompiled(table: seq<RouteRule>, lists: map<seq<string>, seq<nat>>) {
    && (forall p {:trigger RulesAt(table, |table|, p)} | p in lists ::
          IsSorting(table, RulesAt(table, |table|, p), lists[p]))
    && (forall i {:trigger RuleSegments(table[i])} | 0 <= i < |table| :: RuleSegments(table[i]) in lists)
  }

  /** A compiled list holds exactly the rules of its path, each once, in order of priority. */
  lemma ListIsComplete(table: seq<RouteRule>, lists: map<seq<string>, seq<nat>>, p: seq<string>)
    requires ListsCompiled(table, lists) && p in lists
    ensures forall i: nat :: i in lists[p] <==> i < |table| && RuleSegments(table[i]) == p
    ensures lists[p] == [] <==> NoRuleAt(table, p)
    ensures NoDuplicates(lists[p])
    ensures InTable(table, lists[p]) && SortedByPriority(table, lists[p])
  {
    RulesAtMembers(table, |table|, p);
    SameElements(lists[p], RulesAt(table, |table|, p));
    if lists[p] != [] {
      assert lists[p][0] in lists[p];
    } else {
      assert forall i: nat :: i !in lists[p];
    }
  }

  /** Where the trie ends, so do the rules. */
  lemma NothingBelow(table: seq<RouteRule>, lists: map<seq<string>, seq<nat>>, segments: seq<string>, k: nat)
    requires ListsCompiled(table, lists) && PrefixClosed(lists.Keys)
    requires k <= |segments| && segments[..k] !in lists
    ensures forall j | k <= j <= |segments| :: NoRuleAt(table, segments[..j])
  {
    forall j | k <= j <= |segments|
      ensures segments[..j] !in lists
    {
      assert segments[..j][..k] == segments[..k];
      if segments[..j] in lists {
        PrefixesAreIn(lists.Keys, segments[..j], k);
      }
    }
  }

  lemma SortedListsAreCompiled(table: seq<RouteRule>, unsorted: map<seq<string>, seq<nat>>,
                               lists: map<seq<string>, seq<nat>>)
    requires ListsHold(table, |table|, unsorted) && SortedBelow(table, unsorted, lists, [], {})
    ensures ListsCompiled(table, lists)
  {
    forall p | p in lists
      ensures IsSorting(table, RulesAt(table, |table|, p), lists[p])
    {
      assert [] <= p;
    }
  }

  ghost predicate AllInTable(table: seq<RouteRule>, lists: map<seq<string>, seq<nat>>) {
    forall p | p in lists :: InTable(table, lists[p])
  }

  lemma ListsInTable(table: seq<RouteRule>, n: nat, lists: map<seq<string>, seq<nat>>)
    requires ListsHold(table, n, lists)
    ensures AllInTable(table, lists)
  {
    forall p | p in lists
      ensures InTable(table, lists[p])
    {
      RulesAtMembers(table, n, p);
      assert forall i | 0 <= i < |lists[p]| :: lists[p][i] in RulesAt(table, n, p);
    }
  }

  /** Every list at or below `path` is sorted, but for those behind the segments in `todo`; the rest is as before. */
  ghost predicate SortedBelow(table: seq<RouteRule>, before: map<seq<string>, seq<nat>>,
                              after: map<seq<string>, seq<nat>>, path: seq<string>, todo: set<string>)
  {
    && after.Keys == before.Keys
    && forall p | p in before ::
         if path <= p && (p == path || p[|path|] !in todo) then IsSorting(table, before[p], after[p])
         else after[p] == before[p]
  }

  lemma StartsSorted(table: seq<RouteRule>, before: map<seq<string>, seq<nat>>, after: map<seq<string>, seq<nat>>,
                     path: seq<string>, todo: set<string>)
    requires path in before && after.Keys == before.Keys
    requires IsSorting(table, before[path], after[path])
    requires forall p | p in before && p != path :: after[p] == before[p]
    requires forall segment | Extend(path, segment) in before :: segment in todo
    requires PrefixClosed(before.Keys)
    ensures SortedBelow(table, before, after, path, todo)
  {
    forall p | p in before && path <= p && p != path
      ensures p[|path|] in todo
    {
      PrefixesAreIn(before.Keys, p, |path| + 1);
      assert p[..|path| + 1] == Extend(path, p[|path|]);
    }
  }

  lemma SortedOneMore(table: seq<RouteRule>, before: map<seq<string>, seq<nat>>, between: map<seq<string>, seq<nat>>,
                      after: map<seq<string>, seq<nat>>, path: seq<string>, segment: string, todo: set<string>)
    requires SortedBelow(table, before, between, path, todo) && segment in todo
    requires SortedBelow(table, between, after, Extend(path, segment), {})
    ensures SortedBelow(table, before, after, path, todo - {segment})
  {
    var below := Extend(path, segment);
    forall p | p in before
      ensures below <= p <==> path <= p && p != path && p[|path|] == segment
    {
      if path <= p && p != path && p[|path|] == segment {
        assert p[..|path| + 1] == below;
      }
    }
  }

  lemma SortingStaysInTable(table: seq<RouteRule>, before: map<seq<string>, seq<nat>>,
                            after: map<seq<string>, seq<nat>>, path: seq<string>, todo: set<string>)
    requires AllInTable(table, before) && SortedBelow(table, before, after, path, todo)
    ensures AllInTable(table, after)
  {
  }

  lemma FewerBelow(paths: set<seq<string>>, path: seq<string>, segment: string)
    requires path in paths
    ensures (set p | p in paths && Extend(path, segment) <= p) < (set p | p in paths && path <= p)
  {
    var smaller := set p | p in paths && Extend(path, segment) <= p;
    var larger := set p | p in paths && path <= p;
    assert path in larger && path !in smaller;
  }

  class RouteSnapshot {
    var rules: seq<RouteRule>
    var root: TrieNode?
    // the nodes of the trie, and which of them belongs to which path
    ghost var nodes: set<TrieNode>
    ghost var index: map<seq<string>, TrieNode>

    ghost predicate Indexed()
      reads this`nodes, this`index
    {
      forall p | p in index :: index[p] in nodes && index[p].path == p
    }

    ghost function Children(): map<seq<string>, map<string, TrieNode>>
      reads this`nodes, this`index, nodes`children
      requires Indexed()
    {
      map p | p in index :: index[p].children
    }

    ghost function Lists(): map<seq<string>, seq<nat>>
      reads this`nodes, this`index, nodes`rules
      requires Indexed()
    {
      map p | p in index :: index[p].rules
    }

    ghost predicate IsTrie()
      reads this`root, this`nodes, this`index, nodes`children
    {
      Indexed() && TreeShape(index, Children(), root)
    }

    ghost predicate Valid()
      reads this, nodes
    {
      root != null ==> IsTrie() && ListsCompiled(rules, Lists())
    }

    constructor ()
      ensures Valid() && rules == [] && root == null
    {
      rules, root, nodes, index := [], null, {}, map[];
    }

    /** Rules are added before the snapshot is compiled. */
    method AddRule(rule: RouteRule)
      requires root == null
      modifies this
      ensures Valid() && root == null && rules == old(rules) + [rule]
    {
      rules := rules + [rule];
    }

    method Finalize()
      modifies this
      ensures Valid() && root != null && rules == old(rules)
    {
      StartTrie();
      PlaceRules();
      ghost var unsorted := Lists();
      ListsInTable(rules, |rules|, unsorted);
      SortRules(root, []);
      SortedListsAreCompiled(rules, unsorted, Lists());
    }

    method PlaceRules()
      requires IsTrie() && ListsHold(rules, 0, Lists())
      modifies this`nodes, this`index, nodes
      ensures IsTrie() && ListsHold(rules, |rules|, Lists())
      ensures old(nodes) <= nodes && forall x | x in nodes :: x in old(nodes) || fresh(x)
    {
      var n := 0;
      while n < |rules|
        invariant n <= |rules|
        invariant IsTrie() && ListsHold(rules, n, Lists())
        invariant old(nodes) <= nodes && forall x | x in nodes :: x in old(nodes) || fresh(x)
      {
        PlaceRule(n);
        n := n + 1;
      }
    }

    method StartTrie()
      modifies this
      ensures root != null && rules == old(rules) && forall x | x in nodes :: fresh(x)
      ensures IsTrie() && ListsHold(rules, 0, Lists())
    {
      root := new TrieNode([]);
      nodes, index := {root}, map[[] := root];
      ExtendInjective();
    }

    /** Puts rule `n` at the node of its segments. */
    method PlaceRule(n: nat)
      requires n < |rules| && IsTrie() && ListsHold(rules, n, Lists())
      modifies this`nodes, this`index, nodes
      ensures IsTrie() && ListsHold(rules, n + 1, Lists())
      ensures old(nodes) <= nodes && forall x | x in nodes :: x in old(nodes) || fresh(x)
    {
      var node := NodeOfRule(n);
      ListsGrow(rules, n, Lists());
      AppendRule(node, RuleSegments(rules[n]), n);
    }

    method NodeOfRule(n: nat) returns (node: TrieNode)
      requires n < |rules| && IsTrie() && ListsHold(rules, n, Lists())
      modifies this`nodes, this`index, nodes`children
      ensures IsTrie() && ListsHold(rules, n, Lists())
      ensures RuleSegments(rules[n]) in index && node == index[RuleSegments(rules[n])]
      ensures old(nodes) <= nodes && forall x | x in nodes :: x in old(nodes) || fresh(x)
    {
      if rules[n].pathPrefix == "/" {
        SlashHasNoSegments();
        return root;
      }
      ghost var before := Lists();
      var segments := SplitPath(rules[n].pathPrefix);
      node := NodeFor(segments);
      ListsGainPaths(rules, n, before, Lists());
    }

    method AppendRule(node: TrieNode, ghost path: seq<string>, n: nat)
      requires Indexed() && path in index && node == index[path]
      modifies node`rules
      ensures Lists() == old(Lists())[path := old(Lists())[path] + [n]]
      ensures Children() == old(Children())
    {
      node.rules := node.rules + [n];
    }

    /** Walks down along `segments`, adding the nodes that are missing. */
    method NodeFor(segments: seq<string>) returns (node: TrieNode)
      requires IsTrie()
      modifies this`nodes, this`index, nodes`children
      ensures IsTrie() && segments in index && node == index[segments]
      ensures GainedPaths(old(Lists()), Lists())
      ensures old(nodes) <= nodes && forall x | x in nodes :: x in old(nodes) || fresh(x)
    {
      node := root;
      ghost var before := Lists();
      var k := 0;
      assert segments[..0] == [];
      while k < |segments|
        invariant k <= |segments|
        invariant IsTrie() && segments[..k] in index && node == index[segments[..k]]
        invariant GainedPaths(before, Lists())
        invariant old(nodes) <= nodes && forall x | x in nodes :: x in old(nodes) || fresh(x)
      {
        ghost var between := Lists();
        assert segments[..k + 1] == Extend(segments[..k], segments[k]);
        node := ChildFor(node, segments[..k], segments[k]);
        GainedTransitive(before, between, Lists());
        k := k + 1;
      }
      assert segments[..k] == segments;
    }

    /** One step down, onto a new node if there is none yet. */
    method ChildFor(node: TrieNode, ghost here: seq<string>, segment: string) returns (child: TrieNode)
      requires IsTrie() && here in index && node == index[here]
      modifies this`nodes, this`index, node`children
      ensures IsTrie() && Extend(here, segment) in index && child == index[Extend(here, segment)]
      ensures GainedPaths(old(Lists()), Lists())
      ensures old(nodes) <= nodes && forall x | x in nodes :: x in old(nodes) || fresh(x)
    {
      assert Children()[here] == node.children;
      if segment in node.children {
        return node.children[segment];
      }
      child := AddChild(node, here, segment);
    }

    method AddChild(node: TrieNode, ghost here: seq<string>, segment: string) returns (child: TrieNode)
      requires IsTrie() && here in index && node == index[here] && segment !in node.children
      modifies this`nodes, this`index, node`children
      ensures IsTrie() && Extend(here, segment) in index && child == index[Extend(here, segment)]
      ensures Extend(here, segment) !in old(Lists()) && Lists() == old(Lists())[Extend(here, segment) := []]
      ensures nodes == old(nodes) + {child} && fresh(child)
    {
      child := new TrieNode(Extend(here, segment));
      assert Children()[here] == node.children;
      ShapeGrows(index, Children(), root, here, segment, child);
      Attach(node, here, segment, child);
    }

    method Attach(node: TrieNode, ghost here: seq<string>, segment: string, child: TrieNode)
      requires Indexed() && here in index && node == index[here]
      requires child.path !in index && child.children == map[] && child.rules == []
      modifies this`nodes, this`index, node`children
      ensures Indexed() && nodes == old(nodes) + {child} && index == old(index)[child.path := child]
      ensures Children() == old(Children())[child.path := map[]][here := old(Children())[here][segment := child]]
      ensures Lists() == old(Lists())[child.path := []]
    {
      Enter(child);
      SetChild(node, here, segment, child);
    }

    ghost method Enter(child: TrieNode)
      requires Indexed() && child.path !in index && child.children == map[] && child.rules == []
      modifies this`nodes, this`index
      ensures Indexed() && nodes == old(nodes) + {child} && index == old(index)[child.path := child]
      ensures Children() == old(Children())[child.path := map[]]
      ensures Lists() == old(Lists())[child.path := []]
    {
      nodes, index := nodes + {child}, index[child.path := child];
    }

    method SetChild(node: TrieNode, ghost here: seq<string>, segment: string, child: TrieNode)
      requires Indexed() && here in index && node == index[here]
      modifies node`children
      ensures node.children == old(node.children)[segment := child]
      ensures Children() == old(Children())[here := node.children]
    {
      node.children := node.children[segment := child];
    }

    /** Sorts the list of `node` and of every node below it. */
    method SortRules(node: TrieNode, ghost path: seq<string>)
      requires IsTrie() && path in index && node == index[path]
      requires AllInTable(rules, Lists())
      modifies nodes`rules
      ensures SortedBelow(rules, old(Lists()), Lists(), path, {})
      decreases set p | p in index && path <= p
    {
      ghost var before := Lists();
      SortList(node, path);
      var todo := node.children.Keys;
      assert Children()[path] == node.children;
      StartsSorted(rules, before, Lists(), path, todo);
      while todo != {}
        invariant todo <= node.children.Keys
        invariant SortedBelow(rules, before, Lists(), path, todo)
      {
        var segment :| segment in todo;
        ghost var between := Lists();
        assert Extend(path, segment) in index && node.children[segment] == index[Extend(path, segment)];
        FewerBelow(index.Keys, path, segment);
        SortingStaysInTable(rules, before, between, path, todo);
        SortRules(node.children[segment], Extend(path, segment));
        SortedOneMore(rules, before, between, Lists(), path, segment, todo);
        todo := todo - {segment};
      }
    }

    method SortList(node: TrieNode, ghost path: seq<string>)
      requires Indexed() && path in index && node == index[path] && InTable(rules, node.rules)
      modifies node`rules
      ensures IsSorting(rules, old(Lists())[path], Lists()[path])
      ensures Lists() == old(Lists())[path := Lists()[path]]
    {
      node.rules := SortByPriority(rules, node.rules);
    }

    /** Finds the rules of the longest prefix of the path that has any. */
    method FindLongestPrefixRules(path: string) returns (found: seq<nat>)
      requires Valid()
      ensures root == null ==> found == []
      ensures root != null ==> forall i: nat :: i in found <==> IsCandidate(rules, path, i)
      ensures NoDuplicates(found) && InTable(rules, found) && SortedByPriority(rules, found)
    {
      if root == null {
        return [];
      }
      var segments := SplitPath(path);
      if segments == [] {
        ListIsComplete(rules, Lists(), []);
        return root.rules;
      }
      var longest, best := DeepestWithRules(segments);
      if longest == null {
        NoRulesNoCandidates(rules, path);
        return [];
      }
      ListIsComplete(rules, Lists(), segments[..best]);
      DeepestRulesAreCandidates(rules, path, best);
      return longest.rules;
    }

    /** Walks down as far as the trie goes and keeps the last node that has rules, the root left out. */
    method DeepestWithRules(segments: seq<string>) returns (longest: TrieNode?, ghost best: nat)
      requires Valid() && root != null
      ensures best <= |segments| && (longest == null <==> best == 0)
      ensures longest != null ==> segments[..best] in index && longest == index[segments[..best]] && longest.rules != []
      ensures forall j | best < j <= |segments| :: NoRuleAt(rules, segments[..j])
    {
      var node: TrieNode := root;
      longest, best := null, 0;
      var k := 0;
      assert segments[..0] == [];
      while k < |segments|
        invariant k <= |segments|
        invariant segments[..k] in index && node == index[segments[..k]]
        invariant best <= k && (longest == null <==> best == 0)
        invariant longest != null ==>
                    segments[..best] in index && longest == index[segments[..best]] && longest.rules != []
        invariant forall j | best < j <= k :: NoRuleAt(rules, segments[..j])
      {
        assert segments[..k + 1] == Extend(segments[..k], segments[k]);
        assert Children()[segments[..k]] == node.children;
        if segments[k] !in node.children {
          NothingBelow(rules, Lists(), segments, k + 1);
          return;
        }
        node := node.children[segments[k]];
        k := k + 1;
        ListIsComplete(rules, Lists(), segments[..k]);
        if node.rules != [] {
          longest, best := node, k;
        }
      }
    }

    method Match(host: string, path: string, clientIp: string) returns (result: RouteMatch)
      requires Valid()
      ensures root != null ==> IsAnswer(rules, host, path, clientIp, result)
      ensures root == null ==> result == NO_MATCH.(failReason := PathMismatch)
    {
      result := NO_MATCH;
      var candidates := FindLongestPrefixRules(path);
      var k := 0;
      while k < |candidates|
        invariant k <= |candidates|
        invariant forall j | 0 <= j < k :: !Passes(rules[candidates[j]], host, clientIp)
        invariant result == NO_MATCH.(failReason := if k == 0 then NoFailure
                                                    else ReasonOf(rules[candidates[k - 1]], host, clientIp))
      {
        var rule := rules[candidates[k]];
        k := k + 1;
        if !HostMatches(host, rule.hostPattern) {
          result := result.(failReason := HostMismatch);
          continue;
        }
        if rule.allowedClientCidrs != [] {
          var allowed := AnyNetworkAdmits(clientIp, rule.allowedClientCidrs);
          if !allowed {
            result := result.(failReason := ClientIpDenied);
            continue;
          }
        }
        FirstPassingIsAnswer(rules, host, path, clientIp, candidates, k - 1);
        return RouteMatch(true, rule.target, rule.hostPattern + rule.pathPrefix, NoFailure);
      }
      if result.failReason == NoFailure {
        result := result.(failReason := PathMismatch);
      }
      if root != null {
        NonePassingIsAnswer(rules, host, path, clientIp, candidates);
      }
    }
  }

  method AnyNetworkAdmits(ip: string, cidrs: seq<string>) returns (allowed: bool)
    ensures allowed <==> exists c :: c in cidrs && IpInCidr(ip, c)
  {
    allowed := false;
    var k := 0;
    while k < |cidrs|
      invariant k <= |cidrs|
      invariant !allowed && forall j | 0 <= j < k :: !IpInCidr(ip, cidrs[j])
    {
      allowed := CheckIpInCidr(ip, cidrs[k]);
      if allowed {
        assert cidrs[k] in cidrs;
        return;
      }
      k := k + 1;
    }
  }

  lemma SlashHasNoSegments()
    ensures Segments("/") == []
  {
    assert "/"[1..] == "";
  }

  lemma ExtendInjective()
    ensures forall p, s, q, t {:trigger Extend(p, s), Extend(q, t)} :: Extend(p, s) == Extend(q, t) ==> p == q && s == t
    ensures forall p, s {:trigger Extend(p, s)} :: Extend(p, s) != p && Extend(p, s) != []
  {
    forall p, s, q, t {:trigger Extend(p, s), Extend(q, t)} | Extend(p, s) == Extend(q, t)
      ensures p == q && s == t
    {
      assert Extend(p, s)[..|p|] == p && Extend(q, t)[..|q|] == q;
      assert Extend(p, s)[|p|] == s && Extend(q, t)[|q|] == t;
    }
  }

  lemma {:induction false} NothingAt(table: seq<RouteRule>, n: nat, path: seq<string>)
    requires n <= |table| && forall i | 0 <= i < n :: RuleSegments(table[i]) != path
    ensures RulesAt(table, n, path) == []
  {
    if n > 0 {
      NothingAt(table, n - 1, path);
    }
  }

  /** The first candidate that passes has the best priority among those that pass. */
  lemma FirstPassingIsAnswer(table: seq<RouteRule>, host: string, path: string, ip: string, candidates: seq<nat>,
                             k: nat)
    requires forall i: nat :: i in candidates <==> IsCandidate(table, path, i)
    requires InTable(table, candidates) && SortedByPriority(table, candidates)
    requires k < |candidates| && Passes(table[candidates[k]], host, ip)
    requires forall j | 0 <= j < k :: !Passes(table[candidates[j]], host, ip)
    ensures IsAnswer(table, host, path, ip, MatchOf(table[candidates[k]]))
  {
    var chosen := candidates[k];
    assert IsPassing(table, host, path, ip, chosen);
    forall j: nat | IsPassing(table, host, path, ip, j)
      ensures table[chosen].priority <= table[j].priority
    {
      var at :| 0 <= at < |candidates| && candidates[at] == j;
    }
  }

  lemma NonePassingIsAnswer(table: seq<RouteRule>, host: string, path: string, ip: string, candidates: seq<nat>)
    requires forall i: nat :: i in candidates <==> IsCandidate(table, path, i)
    requires InTable(table, candidates) && SortedByPriority(table, candidates)
    requires forall j | 0 <= j < |candidates| :: !Passes(table[candidates[j]], host, ip)
    ensures IsAnswer(table, host, path, ip,
                     NO_MATCH.(failReason := if candidates == [] then PathMismatch
                                             else ReasonOf(table[candidates[|candidates| - 1]], host, ip)))
  {
    forall i: nat | IsCandidate(table, path, i)
      ensures !Passes(table[i], host, ip)
    {
      assert i in candidates;
    }
    if candidates != [] {
      var last := candidates[|candidates| - 1];
      assert IsCandidate(table, path, last);
      forall j: nat | IsCandidate(table, path, j)
        ensures table[j].priority <= table[last].priority
      {
        var at :| 0 <= at < |candidates| && candidates[at] == j;
      }
    }
  }
}
