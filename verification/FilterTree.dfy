/** The cache tree: filters build a chain of nodes level by level, and nodes already built are found again by
    name below their parent. Roots can be removed or evicted at any time. */
module FilterTree {
  import opened Options

  datatype Node<Data> = Node(data: Data, name: string, level: nat)

  /** What initialising a node gives. */
  datatype Made<Data> = Made(data: Data) | Nothing | Broken(error: string)

  /** A filter names and initialises the node of its level, given the request and the parent node. */
  datatype Filter<!Ctx, !Data> = Filter(
    name: (Ctx, Option<Node<Data>>) -> string,
    init: (Ctx, Option<Node<Data>>) -> Made<Data>)

  /** The chain of nodes from the root to the one asked for, no node, or an error. */
  datatype Got<Data> = Chain(nodes: seq<Node<Data>>) | Nil | Failed(error: string)

  function Last<Data>(chain: seq<Node<Data>>): Option<Node<Data>> {
    if chain == [] then None else Some(chain[|chain| - 1])
  }

  function FullName<Data>(name: string, parent: Option<Node<Data>>): string {
    match parent case None => name case Some(p) => p.name + "." + name
  }

  /** Whether the walk ends before level `i`: all filters used, or the requested level reached. */
  predicate Ends<Ctx, Data>(fs: seq<Filter<Ctx, Data>>, level: nat, i: nat) {
    i >= |fs| || (level > 0 && level == i)
  }

  /** One level of a walk: an answer, or the walk goes on with a longer chain. */
  datatype Level<Data> = Stop(got: Got<Data>) | Go(node: Node<Data>)

  /** The answer behind the last level. */
  function Answer<Data>(chain: seq<Node<Data>>): Got<Data> {
    if chain == [] then Nil else Chain(chain)
  }

  /** Initialising the node of the next level. */
  function Create<Ctx, Data>(f: Filter<Ctx, Data>, ctx: Ctx, parent: Option<Node<Data>>, i: nat): Level<Data> {
    match f.init(ctx, parent)
    case Nothing => Stop(Nil)
    case Broken(e) => Stop(Failed(e))
    case Made(d) => Go(Node(d, FullName(f.name(ctx, parent), parent), i))
  }

  /** The chain built from scratch, as for a request that bypasses the cache. */
  function Build<Ctx, Data>(fs: seq<Filter<Ctx, Data>>, ctx: Ctx, level: nat, chain: seq<Node<Data>>): Got<Data>
    decreases |fs| - |chain|
  {
    if Ends(fs, level, |chain|) then Answer(chain)
    else
      match Create(fs[|chain|], ctx, Last(chain), |chain|)
      case Stop(got) => got
      case Go(node) => Build(fs, ctx, level, chain + [node])
  }

  /** How many nodes are asked for: one per filter, or as many as the requested level. */
  function Depth(filters: nat, level: nat): nat {
    if level == 0 || level > filters then filters else level
  }

  /** Node `i` of a chain is the one its filter makes below the node in front of it, under the joined names. */
  ghost predicate MadeAt<Ctx, Data>(fs: seq<Filter<Ctx, Data>>, ctx: Ctx, nodes: seq<Node<Data>>, i: nat)
    requires i < |nodes| && i < |fs|
  {
    var parent := Last(nodes[..i]);
    && fs[i].init(ctx, parent) == Made(nodes[i].data)
    && nodes[i].level == i
    && nodes[i].name == if i == 0 then fs[i].name(ctx, None) else nodes[i - 1].name + "." + fs[i].name(ctx, parent)
  }

  ghost predicate MadeChain<Ctx, Data>(fs: seq<Filter<Ctx, Data>>, ctx: Ctx, nodes: seq<Node<Data>>) {
    |nodes| <= |fs| && forall i :: 0 <= i < |nodes| ==> MadeAt(fs, ctx, nodes, i)
  }

  lemma MadeOneMore<Ctx, Data>(fs: seq<Filter<Ctx, Data>>, ctx: Ctx, nodes: seq<Node<Data>>, node: Node<Data>)
    requires MadeChain(fs, ctx, nodes) && |nodes| < |fs|
    ensures MadeChain(fs, ctx, nodes + [node]) <==> Create(fs[|nodes|], ctx, Last(nodes), |nodes|) == Go(node)
  {
    var longer := nodes + [node];
    forall i | 0 <= i < |nodes| ensures MadeAt(fs, ctx, longer, i) {
      assert longer[..i] == nodes[..i] && MadeAt(fs, ctx, nodes, i);
    }
    assert longer[..|nodes|] == nodes;
    assert MadeChain(fs, ctx, longer) <==> MadeAt(fs, ctx, longer, |nodes|);
  }

  /** What a build answers: the full chain when every filter makes its node, and otherwise the answer of the first
      filter that does not; no node at all when none is asked for. */
  lemma {:induction false} BuildExact<Ctx, Data>(fs: seq<Filter<Ctx, Data>>, ctx: Ctx, level: nat, chain: seq<Node<Data>>)
    returns (nodes: seq<Node<Data>>)
    requires MadeChain(fs, ctx, chain) && |chain| <= Depth(|fs|, level)
    ensures MadeChain(fs, ctx, nodes) && chain <= nodes && |nodes| <= Depth(|fs|, level)
    ensures |nodes| == Depth(|fs|, level) ==> Build(fs, ctx, level, chain) == Answer(nodes)
    ensures |nodes| < Depth(|fs|, level) ==>
      match fs[|nodes|].init(ctx, Last(nodes))
      case Made(_) => false
      case Nothing => Build(fs, ctx, level, chain) == Nil
      case Broken(e) => Build(fs, ctx, level, chain) == Failed(e)
    decreases |fs| - |chain|
  {
    nodes := chain;
    if !Ends(fs, level, |chain|) {
      match Create(fs[|chain|], ctx, Last(chain), |chain|)
      case Stop(_) =>
      case Go(node) =>
        MadeOneMore(fs, ctx, chain, node);
        nodes := BuildExact(fs, ctx, level, chain + [node]);
    }
  }

  // ---------------------------------------------------------------- the cache

  /** Cached nodes by the names from the root to them; all paths below one root form its tree. */
  type Cache<Data> = map<seq<string>, Node<Data>>

  datatype Fetched<Data> = Fetched(cache: Cache<Data>, got: Got<Data>)

  /** The node of the next level, from the cache or initialised. */
  function Find<Ctx, Data>(f: Filter<Ctx, Data>, ctx: Ctx, cache: Cache<Data>, below: seq<string>,
                           parent: Option<Node<Data>>, i: nat): Level<Data> {
    if below in cache then Go(cache[below]) else Create(f, ctx, parent, i)
  }

  /** The walk through the cache from a path already found, filling in what is missing. */
  function Fetch<Ctx, Data>(fs: seq<Filter<Ctx, Data>>, ctx: Ctx, level: nat, cache: Cache<Data>, path: seq<string>,
                            chain: seq<Node<Data>>): Fetched<Data>
    decreases |fs| - |chain|
  {
    if Ends(fs, level, |chain|) then Fetched(cache, Answer(chain))
    else
      var f, parent := fs[|chain|], Last(chain);
      var below := path + [f.name(ctx, parent)];
      match Find(f, ctx, cache, below, parent, |chain|)
      case Stop(got) => Fetched(cache, got)
      case Go(node) => Fetch(fs, ctx, level, cache[below := node], below, chain + [node])
  }

  function WithoutRoot<Data>(cache: Cache<Data>, root: string): Cache<Data> {
    map path | path in cache && !(path != [] && path[0] == root) :: cache[path]
  }

  /** Initialising a node depends on the request only through the name it gives. */
  ghost predicate ByName<Ctx(!new), Data(!new)>(fs: seq<Filter<Ctx, Data>>) {
    forall i, c, d, parent :: 0 <= i < |fs| && fs[i].name(c, parent) == fs[i].name(d, parent) ==>
      fs[i].init(c, parent) == fs[i].init(d, parent)
  }

  /** Some request builds this node under this path. */
  ghost predicate Genuine<Ctx(!new), Data(!new)>(fs: seq<Filter<Ctx, Data>>, cache: Cache<Data>, path: seq<string>)
    requires path in cache && path != []
  {
    var i := |path| - 1;
    && i < |fs|
    && (i > 0 ==> path[..i] in cache)
    && var parent := if i > 0 then Some(cache[path[..i]]) else None;
    && exists c :: fs[i].name(c, parent) == path[i] && fs[i].init(c, parent).Made? &&
         cache[path] == Node(fs[i].init(c, parent).data, FullName(path[i], parent), i)
  }

  ghost predicate Sound<Ctx(!new), Data(!new)>(fs: seq<Filter<Ctx, Data>>, cache: Cache<Data>) {
    forall path :: path in cache ==> path != [] && Genuine(fs, cache, path)
  }

  /** `parent` is the cached node above this path. */
  predicate IsParent<Data(==)>(cache: Cache<Data>, path: seq<string>, parent: Option<Node<Data>>) {
    && |path| > 0
    && if |path| == 1 then parent == None
       else path[..|path| - 1] in cache && parent == Some(cache[path[..|path| - 1]])
  }

  lemma AddKeepsSound<Ctx(!new), Data(!new)>(fs: seq<Filter<Ctx, Data>>, cache: Cache<Data>, path: seq<string>,
                                             parent: Option<Node<Data>>, c: Ctx)
    requires Sound(fs, cache) && IsParent(cache, path, parent) && path !in cache && |path| <= |fs|
    requires var f := fs[|path| - 1]; f.name(c, parent) == path[|path| - 1] && f.init(c, parent).Made?
    ensures var i := |path| - 1; Sound(fs, cache[path := Node(fs[i].init(c, parent).data, FullName(path[i], parent), i)])
  {
    var i := |path| - 1;
    var after := cache[path := Node(fs[i].init(c, parent).data, FullName(path[i], parent), i)];
    forall p | p in after ensures p != [] && Genuine(fs, after, p) {
      if p != path {
        assert Genuine(fs, cache, p);
      }
    }
  }

  /** In a sound cache the next level is the one that would be initialised, */
  lemma FindIsCreate<Ctx(!new), Data(!new)>(fs: seq<Filter<Ctx, Data>>, ctx: Ctx, cache: Cache<Data>, below: seq<string>,
                                            parent: Option<Node<Data>>, i: nat)
    requires ByName(fs) && IsParent(cache, below, parent) && i == |below| - 1 < |fs|
    requires below in cache ==> Genuine(fs, cache, below)
    requires fs[i].name(ctx, parent) == below[i]
    ensures Find(fs[i], ctx, cache, below, parent, i) == Create(fs[i], ctx, parent, i)
  {
    if below in cache {
      var c :| fs[i].name(c, parent) == below[i] && fs[i].init(c, parent).Made? &&
               cache[below] == Node(fs[i].init(c, parent).data, FullName(below[i], parent), i);
      assert fs[i].init(c, parent) == fs[i].init(ctx, parent);
    }
  }

  /** and the cache is sound with it. */
  lemma FindKeepsSound<Ctx(!new), Data(!new)>(fs: seq<Filter<Ctx, Data>>, ctx: Ctx, cache: Cache<Data>, below: seq<string>,
                                              parent: Option<Node<Data>>, i: nat)
    requires Sound(fs, cache) && IsParent(cache, below, parent) && i == |below| - 1 < |fs|
    requires fs[i].name(ctx, parent) == below[i] && Find(fs[i], ctx, cache, below, parent, i).Go?
    ensures Sound(fs, cache[below := Find(fs[i], ctx, cache, below, parent, i).node])
  {
    if below in cache {
      assert cache[below := cache[below]] == cache;
    } else {
      AddKeepsSound(fs, cache, below, parent, ctx);
    }
  }

  /** The path and the chain end in the same cached node. */
  predicate Along<Data(==)>(cache: Cache<Data>, path: seq<string>, chain: seq<Node<Data>>) {
    |path| == |chain| && (path != [] ==> path in cache && cache[path] == chain[|chain| - 1])
  }

  lemma OneFurther<Data>(cache: Cache<Data>, path: seq<string>, chain: seq<Node<Data>>, name: string, node: Node<Data>)
    requires Along(cache, path, chain)
    ensures IsParent(cache, path + [name], Last(chain))
    ensures Along(cache[path + [name] := node], path + [name], chain + [node])
  {
    assert (path + [name])[..|path|] == path;
  }

  /** A walk through a sound cache gives what building from scratch gives, and leaves a sound cache. */
  lemma {:induction false} FetchIsBuild<Ctx(!new), Data(!new)>(fs: seq<Filter<Ctx, Data>>, ctx: Ctx, level: nat,
      cache: Cache<Data>, path: seq<string>, chain: seq<Node<Data>>)
    requires ByName(fs) && Sound(fs, cache) && Along(cache, path, chain) && |chain| <= |fs|
    ensures var r := Fetch(fs, ctx, level, cache, path, chain);
      Sound(fs, r.cache) && r.got == Build(fs, ctx, level, chain)
    decreases |fs| - |chain|
  {
    var i, parent := |chain|, Last(chain);
    if !Ends(fs, level, i) {
      var name := fs[i].name(ctx, parent);
      var below := path + [name];
      var next := Find(fs[i], ctx, cache, below, parent, i);
      if next.Go? {
        OneFurther(cache, path, chain, name, next.node);
        FindIsCreate(fs, ctx, cache, below, parent, i);
        FindKeepsSound(fs, ctx, cache, below, parent, i);
        FetchIsBuild(fs, ctx, level, cache[below := next.node], below, chain + [next.node]);
      }
    }
  }

  lemma RemoveKeepsSound<Ctx(!new), Data(!new)>(fs: seq<Filter<Ctx, Data>>, cache: Cache<Data>, root: string)
    requires Sound(fs, cache)
    ensures Sound(fs, WithoutRoot(cache, root))
  {
    var after := WithoutRoot(cache, root);
    forall p | p in after ensures p != [] && Genuine(fs, after, p) {
      assert Genuine(fs, cache, p);
      if |p| > 1 {
        assert p[..|p| - 1][0] == p[0];
      }
    }
  }

  /** All cached paths below a root are prefixes of no more than `n` names. */
  predicate NotDeeper<Data>(cache: Cache<Data>, root: string, n: nat) {
    forall path :: path in cache && path != [] && path[0] == root ==> |path| <= n
  }

  /** Below a root of which nothing deeper is cached, a walk initialises every level. */
  lemma {:induction false} FetchAnew<Ctx, Data>(fs: seq<Filter<Ctx, Data>>, ctx: Ctx, level: nat, cache: Cache<Data>,
                                                path: seq<string>, chain: seq<Node<Data>>, root: string)
    requires |path| == |chain| && NotDeeper(cache, root, |path|)
    requires if path == [] then fs != [] ==> fs[0].name(ctx, None) == root else path[0] == root
    ensures Fetch(fs, ctx, level, cache, path, chain).got == Build(fs, ctx, level, chain)
    decreases |fs| - |chain|
  {
    var i, parent := |chain|, Last(chain);
    if !Ends(fs, level, i) {
      var below := path + [fs[i].name(ctx, parent)];
      assert below[0] == root && below !in cache;
      var next := Create(fs[i], ctx, parent, i);
      if next.Go? {
        FetchAnew(fs, ctx, level, cache[below := next.node], below, chain + [next.node], root);
      }
    }
  }

  /** Whatever the cache holds, also nodes that would be initialised differently by now: a get behind a removal of the
      same root answers like one without cache, and a removal changes no other root. */
  lemma RemoveRefreshes<Ctx, Data>(fs: seq<Filter<Ctx, Data>>, ctx: Ctx, level: nat, cache: Cache<Data>)
    ensures var after := After(fs, cache, Access.Remove(ctx));
      && Fetch(fs, ctx, level, after, [], []).got == Build(fs, ctx, level, [])
      && forall path :: path in cache && path != [] && fs != [] && path[0] != fs[0].name(ctx, None) ==>
           path in after && after[path] == cache[path]
  {
    var root := if fs == [] then "" else fs[0].name(ctx, None);
    var after := After(fs, cache, Access.Remove(ctx));
    if fs != [] {
      FetchAnew(fs, ctx, level, after, [], [], root);
    }
  }

  /** A walk leaves shorter paths alone. */
  lemma {:induction false} FetchKeeps<Ctx, Data>(fs: seq<Filter<Ctx, Data>>, ctx: Ctx, level: nat, cache: Cache<Data>,
                                                 path: seq<string>, chain: seq<Node<Data>>, p: seq<string>)
    requires p in cache && |p| <= |path|
    ensures var after := Fetch(fs, ctx, level, cache, path, chain).cache; p in after && after[p] == cache[p]
    decreases |fs| - |chain|
  {
    var i, parent := |chain|, Last(chain);
    if !Ends(fs, level, i) {
      var below := path + [fs[i].name(ctx, parent)];
      var next := Find(fs[i], ctx, cache, below, parent, i);
      if next.Go? {
        FetchKeeps(fs, ctx, level, cache[below := next.node], below, chain + [next.node], p);
      }
    }
  }

  /** The filters give the same names. */
  ghost predicate SameNames<Ctx, Data(!new)>(fs: seq<Filter<Ctx, Data>>, gs: seq<Filter<Ctx, Data>>, ctx: Ctx) {
    |fs| == |gs| && forall i, parent :: 0 <= i < |fs| ==> fs[i].name(ctx, parent) == gs[i].name(ctx, parent)
  }

  /** A chain that was answered is found again without initialising anything: a second walk gives the same answer and
      cache even with filters that by now would make other nodes under the same names. */
  lemma {:induction false} SecondGetHits<Ctx, Data(!new)>(fs: seq<Filter<Ctx, Data>>, gs: seq<Filter<Ctx, Data>>, ctx: Ctx,
      level: nat, cache: Cache<Data>, path: seq<string>, chain: seq<Node<Data>>)
    requires SameNames(fs, gs, ctx) && Fetch(fs, ctx, level, cache, path, chain).got.Chain?
    ensures var first := Fetch(fs, ctx, level, cache, path, chain);
      Fetch(gs, ctx, level, first.cache, path, chain) == first
    decreases |fs| - |chain|
  {
    var i, parent := |chain|, Last(chain);
    if !Ends(fs, level, i) {
      var below := path + [fs[i].name(ctx, parent)];
      var node := Find(fs[i], ctx, cache, below, parent, i).node;
      var longer := cache[below := node];
      var first := Fetch(fs, ctx, level, longer, below, chain + [node]);
      FetchKeeps(fs, ctx, level, longer, below, chain + [node], below);
      SecondGetHits(fs, gs, ctx, level, longer, below, chain + [node]);
      assert first.cache[below := node] == first.cache;
    }
  }

  // ---------------------------------------------------------------- runs

  datatype Access<Ctx> = Get(ctx: Ctx, level: nat) | Remove(ctx: Ctx) | Evict(root: string)

  function After<Ctx, Data>(fs: seq<Filter<Ctx, Data>>, cache: Cache<Data>, op: Access<Ctx>): Cache<Data> {
    match op
    case Get(ctx, level) => Fetch(fs, ctx, level, cache, [], []).cache
    case Remove(ctx) => if fs == [] then cache else WithoutRoot(cache, fs[0].name(ctx, None))
    case Evict(root) => WithoutRoot(cache, root)
  }

  function Run<Ctx, Data>(fs: seq<Filter<Ctx, Data>>, ops: seq<Access<Ctx>>): Cache<Data> {
    if ops == [] then map[] else After(fs, Run(fs, ops[..|ops| - 1]), ops[|ops| - 1])
  }

  /** After every sequence of gets, removals and evictions, a cached get answers like one without cache. */
  lemma {:induction false} CachedGetIsBuild<Ctx(!new), Data(!new)>(fs: seq<Filter<Ctx, Data>>, ops: seq<Access<Ctx>>,
                                                                  ctx: Ctx, level: nat)
    requires ByName(fs)
    ensures Sound(fs, Run(fs, ops))
    ensures Fetch(fs, ctx, level, Run(fs, ops), [], []).got == Build(fs, ctx, level, [])
  {
    if ops != [] {
      var init, op := ops[..|ops| - 1], ops[|ops| - 1];
      CachedGetIsBuild(fs, init, ctx, level);
      var cache := Run(fs, init);
      match op
      case Get(c, l) => FetchIsBuild(fs, c, l, cache, [], []);
      case Remove(c) =>
        if fs != [] {
          RemoveKeepsSound(fs, cache, fs[0].name(c, None));
        }
      case Evict(root) => RemoveKeepsSound(fs, cache, root);
    }
    FetchIsBuild(fs, ctx, level, Run(fs, ops), [], []);
  }

  function Single<Data>(made: Made<Data>, name: string): Got<Data> {
    match made case Made(d) => Chain([Node(d, name, 0)]) case Nothing => Nil case Broken(e) => Failed(e)
  }

  lemma OneLevel<Ctx, Data>(f: Filter<Ctx, Data>, ctx: Ctx, cache: Cache<Data>)
    ensures var name, made := f.name(ctx, None), f.init(ctx, None);
      && Build([f], ctx, 0, []) == Single(made, name)
      && Fetch([f], ctx, 0, cache, [], []) ==
           if [name] in cache then Fetched(cache, Chain([cache[[name]]]))
           else Fetched(if made.Made? then cache[[name] := Node(made.data, name, 0)] else cache, Single(made, name))
  {
    var name, made := f.name(ctx, None), f.init(ctx, None);
    assert [] + [name] == [name];
    if [name] in cache {
      assert [] + [cache[[name]]] == [cache[[name]]];
    } else if made.Made? {
      assert [] + [Node(made.data, name, 0)] == [Node(made.data, name, 0)];
    }
  }

  /** The condition is needed: on one level, a second request agrees with its uncached answer exactly when the
      first left no node under its name or both initialise alike. */
  lemma SecondGetExact<Ctx, Data>(f: Filter<Ctx, Data>, c: Ctx, d: Ctx)
    ensures var cache := After([f], map[], Access.Get(c, 0));
      Fetch([f], d, 0, cache, [], []).got == Build([f], d, 0, [])
      <==> f.name(c, None) != f.name(d, None) || !f.init(c, None).Made? || f.init(c, None) == f.init(d, None)
  {
    OneLevel(f, c, map[]);
    OneLevel(f, d, After([f], map[], Access.Get(c, 0)));
    var n, m := f.name(c, None), f.name(d, None);
    assert [n] == [m] <==> n == m by { assert [n][0] == n && [m][0] == m; }
    if n == m && f.init(c, None).Made? {
      var node := Node(f.init(c, None).data, n, 0);
      assert Chain([node]).nodes[0] == node;
      if f.init(d, None).Made? {
        assert Single(f.init(d, None), m).nodes[0].data == f.init(d, None).data;
      }
    }
  }

  class Tree<Ctx, Data> {
    const filters: seq<Filter<Ctx, Data>>
    var cache: Cache<Data>

    constructor (filters: seq<Filter<Ctx, Data>>)
      ensures this.filters == filters && cache == map[]
    {
      this.filters, cache := filters, map[];
    }

    /** The cached walk and the temporary one share their loop; a temporary node has no cached children. */
    method Get(ctx: Ctx, level: nat, noCache: bool) returns (r: Got<Data>)
      modifies this
      ensures noCache ==> r == Build(filters, ctx, level, []) && cache == old(cache)
      ensures !noCache ==>
        cache == Fetch(filters, ctx, level, old(cache), [], []).cache &&
        r == Fetch(filters, ctx, level, old(cache), [], []).got
    {
      var chain: seq<Node<Data>>, path: seq<string> := [], [];
      while !(|chain| >= |filters| || (level > 0 && level == |chain|))
        invariant |chain| == |path|
        invariant noCache ==> cache == old(cache)
        invariant noCache ==> Build(filters, ctx, level, []) == Build(filters, ctx, level, chain)
        invariant !noCache ==>
          Fetch(filters, ctx, level, old(cache), [], []) == Fetch(filters, ctx, level, cache, path, chain)
        decreases |filters| - |chain|
      {
        var i := |chain|;
        var parent := Last(chain);
        var name := filters[i].name(ctx, parent);
        var below := path + [name];
        if !noCache && below in cache {
          var node := cache[below];
          assert cache[below := node] == cache;
          path, chain := below, chain + [node];
          continue;
        }
        match filters[i].init(ctx, parent)
        case Nothing => return Nil;
        case Broken(e) => return Failed(e);
        case Made(d) =>
          var node := Node(d, FullName(name, parent), i);
          if !noCache {
            cache := cache[below := node];
          }
          path, chain := below, chain + [node];
      }
      return if chain == [] then Nil else Chain(chain);
    }

    method Remove(ctx: Ctx)
      modifies this
      ensures cache == After(filters, old(cache), Access.Remove(ctx))
    {
      if |filters| == 0 {
        return;
      }
      cache := WithoutRoot(cache, filters[0].name(ctx, None));
    }
  }
}
