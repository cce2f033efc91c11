/** Parent links between tweets and the walk from a reply up to the root
    tweet of its conversation thread. */
module Threads {

  datatype Option<T> = None | Some(value: T)

  /** The numeric `id` field of a tweet. */
  type TweetId = int

  /** The parent relation of the tweets of one or more threads, keyed by tweet id.
      `parent[id]` is `None` for a root tweet. `depth` is any measure that strictly
      decreases from a reply to its parent (the depth in the thread is one); it stands
      for the acyclicity of conversation trees, which is what makes the walk to the
      root end. */
  datatype Forest = Forest(parent: map<TweetId, Option<TweetId>>, depth: map<TweetId, nat>) {

    /** Every parent is a known tweet, and every link goes strictly up. */
    predicate Valid() {
      && parent.Keys <= depth.Keys
      && forall id | id in parent && parent[id].Some? ::
           parent[id].value in parent && depth[parent[id].value] < depth[id]
    }

    predicate IsRoot(id: TweetId)
      requires id in parent
    {
      parent[id].None?
    }
  }

  /** The root of the thread `id` belongs to: follow parent links until a tweet
      without a parent. */
  function Root(f: Forest, id: TweetId): (r: TweetId)
    requires f.Valid() && id in f.parent
    ensures r in f.parent && f.IsRoot(r)
    ensures f.IsRoot(id) ==> r == id
    decreases f.depth[id]
  {
    match f.parent[id]
    case None => id
    case Some(p) => Root(f, p)
  }

  /** `a` is `id` itself or one of its ancestors. */
  predicate AncestorOrSelf(f: Forest, a: TweetId, id: TweetId)
    requires f.Valid() && id in f.parent
    decreases f.depth[id]
  {
    a == id || (f.parent[id].Some? && AncestorOrSelf(f, a, f.parent[id].value))
  }

  /** The root found by the walk is an ancestor of the tweet (or the tweet itself). */
  lemma {:induction false} RootIsAncestor(f: Forest, id: TweetId)
    requires f.Valid() && id in f.parent
    ensures AncestorOrSelf(f, Root(f, id), id)
    decreases f.depth[id]
  {
    match f.parent[id]
    case None =>
    case Some(p) => RootIsAncestor(f, p);
  }

  /** A tweet and each of its ancestors belong to the same thread. */
  lemma {:induction false} AncestorSharesRoot(f: Forest, a: TweetId, id: TweetId)
    requires f.Valid() && id in f.parent
    requires AncestorOrSelf(f, a, id)
    ensures a in f.parent && Root(f, a) == Root(f, id)
    decreases f.depth[id]
  {
    if a != id {
      AncestorSharesRoot(f, a, f.parent[id].value);
    }
  }

  /** The root is the one and only parentless ancestor-or-self of a tweet. */
  lemma RootIsUnique(f: Forest, a: TweetId, id: TweetId)
    requires f.Valid() && id in f.parent
    requires AncestorOrSelf(f, a, id)
    requires a in f.parent && f.IsRoot(a)
    ensures a == Root(f, id)
  {
    AncestorSharesRoot(f, a, id);
  }

  /** The iterative walk: reassign the current tweet to its parent until it has none. */
  method FindRoot(f: Forest, id: TweetId) returns (root: TweetId)
    requires f.Valid() && id in f.parent
    ensures root == Root(f, id)
  {
    root := id;
    while f.parent[root].Some?
      invariant root in f.parent
      invariant Root(f, root) == Root(f, id)
      decreases f.depth[root]
    {
      root := f.parent[root].value;
    }
  }
}
