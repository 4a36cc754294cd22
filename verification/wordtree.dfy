/** The dictionary's binary search tree as a value: the words it holds and
    their arrangement, without the heap. The heap-based dictionary is proved
    to track this value; every property of insertion, lookup and traversal
    is stated and proved here. */
module WordTree {
  import opened CStrings

  datatype Tree = Nil | Branch(left: Tree, word: string, right: Tree)

  function Words(t: Tree): set<string>
  {
    match t
    case Nil => {}
    case Branch(l, w, r) => Words(l) + {w} + Words(r)
  }

  /** Number of nodes. */
  function Size(t: Tree): nat
  {
    match t
    case Nil => 0
    case Branch(l, _, r) => Size(l) + 1 + Size(r)
  }

  /** The shape invariant of the dictionary: at every node, each word of the
      left subtree is strictly below the node's word and each word of the
      right subtree strictly above it, under `strcmp`. */
  ghost predicate SearchTree(t: Tree)
  {
    match t
    case Nil => true
    case Branch(l, w, r) =>
      && SearchTree(l) && SearchTree(r)
      && (forall x | x in Words(l) :: Strcmp(x, w) < 0)
      && (forall y | y in Words(r) :: Strcmp(w, y) < 0)
  }

  /** Every word is free of upper-case letters. */
  ghost predicate AllLower(t: Tree)
  {
    forall w | w in Words(t) :: NoUpper(w)
  }

  /** The walk of `dict_insert`: descend by `strcmp`, stop on an equal word
      (nothing changes) or hang a new leaf where the walk falls off. */
  function TreeInsert(t: Tree, w: string): Tree
  {
    match t
    case Nil => Branch(Nil, w, Nil)
    case Branch(l, v, r) =>
      var c := Strcmp(w, v);
      if c == 0 then t
      else if c < 0 then Branch(TreeInsert(l, w), v, r)
      else Branch(l, v, TreeInsert(r, w))
  }

  /** The walk of `dict_find`: descend by `strcasecmp` through a tree that
      was shaped by `strcmp`. */
  function Search(t: Tree, q: string): bool
  {
    match t
    case Nil => false
    case Branch(l, v, r) =>
      var c := Strcasecmp(q, v);
      if c == 0 then true
      else if c < 0 then Search(l, q)
      else Search(r, q)
  }

  /** Left subtree, node, right subtree: the order of `print_in_order` and
      `write_recursive`. */
  function InOrder(t: Tree): seq<string>
  {
    match t
    case Nil => []
    case Branch(l, w, r) => InOrder(l) + [w] + InOrder(r)
  }

  /** `u` keeps every node of `t`, with the same word in the same position;
      it may only have more nodes where `t` has none. */
  ghost predicate Extends(t: Tree, u: Tree)
  {
    match t
    case Nil => true
    case Branch(l, w, r) =>
      u.Branch? && u.word == w && Extends(l, u.left) && Extends(r, u.right)
  }

  ghost predicate StrictlySorted(s: seq<string>)
  {
    forall i, j :: 0 <= i < j < |s| ==> Strcmp(s[i], s[j]) < 0
  }

  // ---------------------------------------------------------------------
  // Insertion

  /** Insertion adds exactly the new word to the word set. */
  lemma {:induction false} InsertWords(t: Tree, w: string)
    ensures Words(TreeInsert(t, w)) == Words(t) + {w}
  {
    match t
    case Nil =>
    case Branch(l, v, r) =>
      var c := Strcmp(w, v);
      if c < 0 {
        InsertWords(l, w);
      } else if c > 0 {
        InsertWords(r, w);
      }
  }

  /** Insertion keeps the strict `strcmp` ordering. */
  lemma {:induction false} InsertKeepsOrder(t: Tree, w: string)
    requires SearchTree(t)
    ensures SearchTree(TreeInsert(t, w))
  {
    match t
    case Nil =>
    case Branch(l, v, r) =>
      var c := Strcmp(w, v);
      if c < 0 {
        InsertKeepsOrder(l, w);
        InsertWords(l, w);
      } else if c > 0 {
        InsertKeepsOrder(r, w);
        InsertWords(r, w);
        StrcmpAntisymmetric(w, v);
      }
  }

  /** In a search tree the `strcmp` walk finds a word exactly when it is
      stored: insertion leaves the tree alone on a duplicate and otherwise
      adds one node. */
  lemma {:induction false} InsertSize(t: Tree, w: string)
    requires SearchTree(t)
    ensures w in Words(t) ==> TreeInsert(t, w) == t
    ensures w !in Words(t) ==> Size(TreeInsert(t, w)) == Size(t) + 1
  {
    match t
    case Nil =>
    case Branch(l, v, r) =>
      var c := Strcmp(w, v);
      if c < 0 {
        forall y | y in Words(r) ensures y != w {
          StrcmpTransitive(w, v, y);
        }
        assert w != v && w !in Words(r);
        InsertSize(l, w);
      } else if c > 0 {
        StrcmpAntisymmetric(w, v);
        forall x | x in Words(l) ensures x != w {
          StrcmpTransitive(x, v, w);
        }
        InsertSize(r, w);
      }
  }

  /** Insertion never moves or rewrites an existing node: the new word is
      attached below the old tree. */
  lemma {:induction false} InsertExtends(t: Tree, w: string)
    ensures Extends(t, TreeInsert(t, w))
  {
    match t
    case Nil =>
    case Branch(l, v, r) =>
      var c := Strcmp(w, v);
      if c == 0 {
        ExtendsRefl(l);
        ExtendsRefl(r);
      } else if c < 0 {
        InsertExtends(l, w);
        ExtendsRefl(r);
      } else {
        ExtendsRefl(l);
        InsertExtends(r, w);
      }
  }

  lemma {:induction false} ExtendsRefl(t: Tree)
    ensures Extends(t, t)
  {
    match t
    case Nil =>
    case Branch(l, _, r) =>
      ExtendsRefl(l);
      ExtendsRefl(r);
  }

  // ---------------------------------------------------------------------
  // In-order traversal

  /** The in-order traversal of a search tree lists every stored word, once
      each, in strictly increasing `strcmp` order, and has one entry per
      node. */
  lemma {:induction false} InOrderSorted(t: Tree)
    requires SearchTree(t)
    ensures StrictlySorted(InOrder(t))
    ensures forall x :: x in InOrder(t) <==> x in Words(t)
    ensures |InOrder(t)| == Size(t)
  {
    match t
    case Nil =>
    case Branch(l, w, r) =>
      InOrderSorted(l);
      InOrderSorted(r);
      SortedJoin(InOrder(l), w, InOrder(r));
  }

  lemma SortedJoin(a: seq<string>, w: string, b: seq<string>)
    requires StrictlySorted(a) && StrictlySorted(b)
    requires forall x | x in a :: Strcmp(x, w) < 0
    requires forall y | y in b :: Strcmp(w, y) < 0
    ensures StrictlySorted(a + [w] + b)
  {
    var s := a + [w] + b;
    forall i, j | 0 <= i < j < |s| ensures Strcmp(s[i], s[j]) < 0 {
      if j < |a| {
        assert s[i] == a[i] && s[j] == a[j];
      } else if i < |a| && j == |a| {
        assert s[i] == a[i];
      } else if i < |a| {
        assert s[i] == a[i] && s[j] == b[j - |a| - 1];
        StrcmpTransitive(s[i], w, s[j]);
      } else if i == |a| {
        assert s[j] == b[j - |a| - 1];
      } else {
        assert s[i] == b[i - |a| - 1] && s[j] == b[j - |a| - 1];
      }
    }
  }

  /** Two strictly sorted sequences with the same elements are equal. */
  lemma {:induction false} SortedUnique(a: seq<string>, b: seq<string>)
    requires StrictlySorted(a) && StrictlySorted(b)
    requires forall x :: x in a <==> x in b
    ensures a == b
  {
    if a != [] { assert a[0] in b; }
    if b != [] { assert b[0] in a; }
    if a != [] && b != [] {
      HeadIsLeast(a, b);
      HeadIsLeast(b, a);
      StrcmpAntisymmetric(a[0], b[0]);
      assert a[0] == b[0];
      SortedTail(a);
      SortedTail(b);
      forall x ensures x in a[1..] <==> x in b[1..] {
        TailMembers(a, x);
        TailMembers(b, x);
      }
      SortedUnique(a[1..], b[1..]);
      assert a == [a[0]] + a[1..] && b == [b[0]] + b[1..];
    }
  }

  /** The head of a strictly sorted sequence is not above any element of a
      sequence with the same members. */
  lemma HeadIsLeast(a: seq<string>, b: seq<string>)
    requires StrictlySorted(a) && a != [] && b != []
    requires forall x :: x in a <==> x in b
    ensures b[0] == a[0] || Strcmp(a[0], b[0]) < 0
  {
    assert b[0] in a;
    var k :| 0 <= k < |a| && a[k] == b[0];
  }

  lemma SortedTail(a: seq<string>)
    requires StrictlySorted(a) && a != []
    ensures StrictlySorted(a[1..])
  {
    forall i, j | 0 <= i < j < |a| - 1 ensures Strcmp(a[1..][i], a[1..][j]) < 0 {
      assert a[1..][i] == a[i + 1] && a[1..][j] == a[j + 1];
    }
  }

  /** In a strictly sorted sequence the tail holds every member but the head. */
  lemma TailMembers(a: seq<string>, x: string)
    requires StrictlySorted(a) && a != []
    ensures x in a[1..] <==> x in a && x != a[0]
  {
    if x in a[1..] {
      var i :| 0 <= i < |a| - 1 && a[1..][i] == x;
      assert a[i + 1] == x;
    }
    if x in a && x != a[0] {
      var i :| 0 <= i < |a| && a[i] == x;
      assert a[1..][i - 1] == x;
    }
  }

  // ---------------------------------------------------------------------
  // Lookup

  /** Lookup is sound: a hit always stands for a stored word that equals
      the query once case is ignored. */
  lemma {:induction false} SearchSound(t: Tree, q: string)
    requires Search(t, q)
    ensures exists w :: w in Words(t) && LowerStr(w) == LowerStr(q)
  {
    match t
    case Branch(l, v, r) =>
      var c := Strcasecmp(q, v);
      if c == 0 {
        assert v in Words(t);
      } else if c < 0 {
        SearchSound(l, q);
      } else {
        SearchSound(r, q);
      }
  }

  /** When no stored word has an upper-case letter, the two comparators agree
      on the tree and lookup is exact: it hits precisely when the lowercased
      query is stored. */
  lemma {:induction false} SearchExactWhenLower(t: Tree, q: string)
    requires SearchTree(t) && AllLower(t)
    ensures Search(t, q) <==> LowerStr(q) in Words(t)
  {
    match t
    case Nil =>
    case Branch(l, v, r) =>
      var lq := LowerStr(q);
      LowerStrOfNoUpper(v);
      var c := Strcasecmp(q, v);
      assert c == Strcmp(lq, v);
      if c < 0 {
        SearchExactWhenLower(l, q);
        forall y | y in Words(r) ensures y != lq {
          StrcmpTransitive(lq, v, y);
        }
      } else if c > 0 {
        SearchExactWhenLower(r, q);
        StrcmpAntisymmetric(lq, v);
        forall x | x in Words(l) ensures x != lq {
          StrcmpTransitive(x, v, lq);
        }
      }
  }
}
