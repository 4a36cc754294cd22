/** The word dictionary of the spell checker: an unbalanced binary search
    tree of `Node` objects, ordered by `strcmp` when words are inserted and
    searched with `strcasecmp` when they are looked up, together with its
    text-file load and save. */
module Dictionaries {
  import opened CStrings
  import opened WordTree
  import opened NodeShapes
  import opened TextFormat
  import opened Maybe

  /** `dictionary_t`: the root pointer and the running node count. */
  class Dictionary {
    var root: Node?
    var size: nat
    ghost var shape: Shape
    ghost var Repr: set<object>

    /** The heap holds exactly the nodes of `shape`, linked as `shape` says;
        the words are strictly ordered by `strcmp`; `size` counts the nodes. */
    ghost predicate Valid()
      reads this, Repr
    {
      && this in Repr
      && Repr == {this} + NodesOf(shape)
      && root == Top(shape)
      && Distinct(shape)
      && Linked(shape)
      && SearchTree(Abs(shape))
      && size == Size(Abs(shape))
    }

    /** The words held, as a tree value. */
    ghost function Contents(): Tree
      reads this
    {
      Abs(shape)
    }

    /** `create_dictionary`: no root, size 0. */
    constructor ()
      ensures Valid() && fresh(Repr)
      ensures root == null && size == 0 && Contents() == Nil
    {
      root := null;
      size := 0;
      shape := Empty;
      Repr := {this};
    }

    /** `dict_insert` on a non-NULL dictionary and word. The word is added as
        a new leaf unless `strcmp` finds it already stored, in which case
        nothing changes and -1 is returned. */
    method Insert(word: string) returns (status: int)
      requires Valid()
      modifies Repr
      ensures Valid() && fresh(Repr - old(Repr))
      ensures status == 0 || status == -1
      ensures status == 0 <==> word !in old(Words(Contents()))
      ensures Contents() == TreeInsert(old(Contents()), word)
      ensures Extends(old(Contents()), Contents())
      ensures status == 0 ==> size == old(size) + 1
      ensures status == -1 ==> Repr == old(Repr) && unchanged(Repr)
    {
      InsertExtends(Contents(), word);
      var node := new Node(word);
      if root == null {
        root := node;
        size := 1;
        shape := Cell(Empty, node, Empty);
        Repr := Repr + {node};
        return 0;
      }
      var current: Node? := root;
      while current != null
        invariant current != null && current in NodesOf(shape)
        invariant shape == old(shape) && Repr == old(Repr)
        invariant Valid() && unchanged(old(Repr))
        invariant fresh(node) && node.word == word && node.left == null && node.right == null
        invariant ShapeInsert(shape, node) == ReplaceSub(shape, current, ShapeInsert(Sub(shape, current), node))
        decreases Sub(shape, current)
      {
        SubFound(shape, current);
        var cmp := Strcmp(word, current.word);
        if cmp == 0 {
          // the word is already stored: the new node is dropped
          InsertMeetsEqual(shape, current, node);
          return -1;
        } else if cmp < 0 {
          if current.left == null {
            current.left := node;
            size := size + 1;
            AdoptLeaf(current, node, true);
            return 0;
          }
          InsertDescends(shape, current, true, node);
          current := current.left;
        } else {
          if current.right == null {
            current.right := node;
            size := size + 1;
            AdoptLeaf(current, node, false);
            return 0;
          }
          InsertDescends(shape, current, false, node);
          current := current.right;
        }
      }
      // the walk always ends inside the loop
      assert false;
      return -1;
    }

    /** Brings the ghost state up to date after `parent`'s child pointer on
        one side was set to the fresh leaf `node` and `size` was incremented. */
    ghost method AdoptLeaf(parent: Node, node: Node, toLeft: bool)
      requires this in Repr && Repr == {this} + NodesOf(shape) && node !in Repr
      requires root == Top(shape) && Distinct(shape) && SearchTree(Abs(shape))
      requires size == Size(Abs(shape)) + 1
      requires parent in NodesOf(shape) && Sub(shape, parent).Cell? && Kid(Sub(shape, parent), toLeft) == Empty
      requires node.left == null && node.right == null
      requires toLeft ==> parent.left == node && parent.right == Child(shape, parent, false)
      requires !toLeft ==> parent.right == node && parent.left == Child(shape, parent, true)
      requires forall m | m in NodesOf(shape) && m != parent ::
                 m.left == Child(shape, m, true) && m.right == Child(shape, m, false)
      requires ShapeInsert(shape, node) ==
                 ReplaceSub(shape, parent, WithKid(Sub(shape, parent), toLeft, Cell(Empty, node, Empty)))
      modifies this
      ensures Valid() && Repr == old(Repr) + {node}
      ensures shape == ShapeInsert(old(shape), node)
      ensures Abs(shape) == TreeInsert(old(Abs(shape)), node.word)
      ensures node.word !in Words(old(Abs(shape)))
    {
      var s := shape;
      LinkedAfterAttach(s, parent, toLeft, node);
      AttachInserts(s, parent, toLeft, node);
      shape := ShapeInsert(s, node);
      Repr := Repr + {node};
    }

    /** `dict_find` on a non-NULL dictionary and query: the walk steered by
        `strcasecmp`. A hit is always a stored word up to case; when no
        stored word has an upper-case letter, the walk is exact. */
    method Find(query: string) returns (found: bool)
      requires Valid()
      ensures found == Search(Contents(), query)
      ensures found ==> exists w :: w in Words(Contents()) && LowerStr(w) == LowerStr(query)
      ensures AllLower(Contents()) ==> (found <==> LowerStr(query) in Words(Contents()))
    {
      if Search(Contents(), query) {
        SearchSound(Contents(), query);
      }
      if AllLower(Contents()) {
        SearchExactWhenLower(Contents(), query);
      }
      var current := root;
      ghost var sub := shape;
      while current != null
        invariant current == Top(sub)
        invariant sub == Empty || (sub.node in NodesOf(shape) && Sub(shape, sub.node) == sub)
        invariant Search(Contents(), query) == Search(Abs(sub), query)
        decreases sub
      {
        var cmp := Strcasecmp(query, current.word);
        if cmp == 0 {
          return true;
        } else if cmp < 0 {
          if sub.left.Cell? {
            DescendSub(shape, current, true);
          }
          current := current.left;
          sub := sub.left;
        } else {
          if sub.right.Cell? {
            DescendSub(shape, current, false);
          }
          current := current.right;
          sub := sub.right;
        }
      }
      return false;
    }

    /** `print_in_order` and `write_recursive`: left subtree, the node's word
        and a '\n', right subtree, appended to what the sink already holds. */
    method EmitInOrder(node: Node?, ghost sub: Shape, sink: string) returns (text: string)
      requires Valid()
      requires node == Top(sub)
      requires sub == Empty || (sub.node in NodesOf(shape) && Sub(shape, sub.node) == sub)
      ensures text == sink + Records(InOrder(Abs(sub)))
      decreases sub
    {
      if node == null {
        return sink;
      }
      if sub.left.Cell? {
        DescendSub(shape, node, true);
      }
      if sub.right.Cell? {
        DescendSub(shape, node, false);
      }
      text := EmitInOrder(node.left, sub.left, sink);
      text := text + node.word + "\n";
      text := EmitInOrder(node.right, sub.right, text);
      RecordsBranchAfter(sink, Abs(sub.left), node.word, Abs(sub.right));
    }

    /** `free_post_order`: the nodes of the subtree in the order they are
        released -- left subtree, right subtree, then the node itself. */
    method ReleasePostOrder(node: Node?, ghost sub: Shape) returns (freed: seq<Node>)
      requires Valid()
      requires node == Top(sub)
      requires sub == Empty || (sub.node in NodesOf(shape) && Sub(shape, sub.node) == sub)
      ensures freed == PostOrder(sub)
      decreases sub
    {
      if node == null {
        return [];
      }
      if sub.left.Cell? {
        DescendSub(shape, node, true);
      }
      if sub.right.Cell? {
        DescendSub(shape, node, false);
      }
      var l := ReleasePostOrder(node.left, sub.left);
      var r := ReleasePostOrder(node.right, sub.right);
      freed := l + r + [node];
    }
  }

  /** `dict_free`: the objects released, in order -- the nodes by
      `free_post_order`, then the dictionary itself; nothing for NULL. */
  ghost function FreeOrder(dict: Dictionary?): seq<object>
    reads dict
  {
    if dict == null then [] else PostOrder(dict.shape) + [dict]
  }

  /** `dict_free` releases exactly the objects of the dictionary. */
  lemma FreeReleasesAll(dict: Dictionary)
    requires dict.Valid()
    ensures forall k :: 0 <= k < |FreeOrder(dict)| ==> FreeOrder(dict)[k] in dict.Repr
    ensures forall o | o in dict.Repr :: o in FreeOrder(dict)
  {
    var p := PostOrder(dict.shape);
    PostOrderMembers(dict.shape);
    var f := FreeOrder(dict);
    forall k | 0 <= k < |p| ensures f[k] == p[k] && f[k] in NodesOf(dict.shape) {
    }
    forall n | n in NodesOf(dict.shape) ensures n in f {
      assert n in p;
    }
  }

  /** `dict_free` releases each object once, and the dictionary record only
      after all its nodes. */
  lemma FreeReleasesOnce(dict: Dictionary)
    requires dict.Valid()
    ensures forall i, j :: 0 <= i < j < |FreeOrder(dict)| ==> FreeOrder(dict)[i] != FreeOrder(dict)[j]
    ensures FreeOrder(dict)[|FreeOrder(dict)| - 1] == dict
  {
    var p := PostOrder(dict.shape);
    PostOrderMembers(dict.shape);
    PostOrderDistinct(dict.shape);
    var f := FreeOrder(dict);
    forall k | 0 <= k < |p| ensures f[k] == p[k] && f[k] in NodesOf(dict.shape) {
    }
  }

  /** `dict_free`: nothing for a NULL dictionary; otherwise the nodes in
      post-order, then the dictionary record. */
  method DictFree(dict: Dictionary?) returns (freed: seq<object>)
    requires dict != null ==> dict.Valid()
    ensures freed == FreeOrder(dict)
  {
    if dict == null {
      return [];
    }
    var nodes := dict.ReleasePostOrder(dict.root, dict.shape);
    freed := nodes + [dict];
  }

  /** `dict_insert`, NULL pointers included: a NULL dictionary or word is
      rejected with -1 before anything is touched. */
  method DictInsert(dict: Dictionary?, word: Option<string>) returns (status: int)
    requires dict != null ==> dict.Valid()
    modifies if dict != null then dict.Repr else {}
    ensures dict != null ==> dict.Valid() && fresh(dict.Repr - old(dict.Repr))
    ensures dict == null || word.None? ==> status == -1
    ensures dict != null && word.None? ==> dict.Repr == old(dict.Repr) && unchanged(dict.Repr)
    ensures dict != null && word.Some? ==>
              && (status == 0 || status == -1)
              && (status == 0 <==> word.value !in old(Words(dict.Contents())))
              && dict.Contents() == TreeInsert(old(dict.Contents()), word.value)
              && Extends(old(dict.Contents()), dict.Contents())
              && (status == 0 ==> dict.size == old(dict.size) + 1)
              && (status == -1 ==> dict.Repr == old(dict.Repr) && unchanged(dict.Repr))
  {
    if dict == null || word.None? {
      return -1;
    }
    status := dict.Insert(word.value);
  }

  /** `dict_find`, NULL pointers included: 1 when the `strcasecmp` walk hits,
      0 otherwise, and 0 for a NULL dictionary, a NULL query or an empty
      tree. */
  method DictFind(dict: Dictionary?, query: Option<string>) returns (r: int)
    requires dict != null ==> dict.Valid()
    ensures r == 0 || r == 1
    ensures dict == null || query.None? ==> r == 0
    ensures dict != null && dict.root == null ==> r == 0
    ensures dict != null && query.Some? ==> (r == 1 <==> Search(dict.Contents(), query.value))
  {
    if dict == null || query.None? {
      return 0;
    }
    var found := dict.Find(query.value);
    r := if found then 1 else 0;
  }

  /** `dict_print`: the printed lines, nothing for a NULL dictionary. */
  method DictPrint(dict: Dictionary?) returns (out: string)
    requires dict != null ==> dict.Valid()
    ensures dict == null ==> out == []
    ensures dict != null ==> out == Records(InOrder(dict.Contents()))
  {
    if dict == null {
      return [];
    }
    out := dict.EmitInOrder(dict.root, dict.shape, []);
  }

  /** `write_dict_to_text_file`: -1 and no file written for a NULL
      dictionary or a file that cannot be opened (`canOpen` is what `fopen`
      reports); otherwise 0 and the file's new contents. */
  method WriteDictToText(dict: Dictionary?, canOpen: bool) returns (status: int, file: Option<string>)
    requires dict != null ==> dict.Valid()
    ensures status == 0 || status == -1
    ensures status == -1 <==> dict == null || !canOpen
    ensures status == -1 ==> file == None
    ensures status == 0 ==> dict != null && file == Some(Records(InOrder(dict.Contents())))
  {
    if dict == null || !canOpen {
      return -1, None;
    }
    var text := dict.EmitInOrder(dict.root, dict.shape, []);
    assert text == Records(InOrder(dict.Contents()));
    return 0, Some(text);
  }

  /** `read_dict_from_text_file`: `file` is the file's text, or None when it
      cannot be opened. Each `fgets` line loses one trailing '\n' and is
      inserted in file order; the first failed insertion discards the whole
      dictionary. */
  method ReadDictFromText(file: Option<string>) returns (dict: Dictionary?)
    ensures dict == null <==> file.None? || LoadLines(FgetsLines(file.value)).None?
    ensures dict != null ==>
              && fresh(dict.Repr) && dict.Valid()
              && Some(dict.Contents()) == LoadLines(FgetsLines(file.value))
  {
    if file.None? {
      return null;
    }
    var d := new Dictionary();
    var lines := FgetsLines(file.value);
    var i := 0;
    while i < |lines|
      invariant 0 <= i <= |lines|
      invariant d.Valid() && fresh(d.Repr)
      invariant LoadLines(lines) == LoadFrom(d.Contents(), lines[i..])
    {
      assert lines[i..][0] == lines[i] && lines[i..][1..] == lines[i + 1..];
      var word := StripNewline(lines[i]);
      var status := d.Insert(word);
      if status != 0 {
        return null;
      }
      i := i + 1;
    }
    return d;
  }

  /** The tree is shaped by `strcmp` but searched by `strcasecmp`: after
      inserting "apple", "Banana" and "cherry", "Banana" sits left of
      "apple", while a search for "banana" turns right at "apple" and misses
      it; "APPLE" and "Cherry" are still found. */
  method CaseMismatchScenario() returns (listing: string, banana: int, upperApple: int, upperCherry: int, grape: int)
    ensures listing == "Banana\napple\ncherry\n"
    ensures banana == 0 && upperApple == 1 && upperCherry == 1 && grape == 0
  {
    var d := new Dictionary();
    var s := d.Insert("apple");
    s := d.Insert("Banana");
    s := d.Insert("cherry");
    CaseMismatchTree();
    CaseMismatchSearch();
    CaseMismatchListing();
    listing := DictPrint(d);
    banana := DictFind(d, Some("banana"));
    upperApple := DictFind(d, Some("APPLE"));
    upperCherry := DictFind(d, Some("Cherry"));
    grape := DictFind(d, Some("grape"));
  }

  function FruitTree(): Tree
  {
    Branch(Branch(Nil, "Banana", Nil), "apple", Branch(Nil, "cherry", Nil))
  }

  lemma CaseMismatchTree()
    ensures TreeInsert(TreeInsert(TreeInsert(Nil, "apple"), "Banana"), "cherry") == FruitTree()
  {
    assert Strcmp("Banana", "apple") < 0;
    assert TreeInsert(TreeInsert(Nil, "apple"), "Banana") == Branch(Branch(Nil, "Banana", Nil), "apple", Nil);
    assert Strcmp("cherry", "apple") > 0;
  }

  lemma CaseMismatchSearch()
    ensures !Search(FruitTree(), "banana") && !Search(FruitTree(), "grape")
    ensures Search(FruitTree(), "APPLE") && Search(FruitTree(), "Cherry")
  {
    assert Strcasecmp("banana", "apple") > 0 && Strcasecmp("banana", "cherry") < 0;
    assert Strcasecmp("APPLE", "apple") == 0;
    assert Strcasecmp("Cherry", "apple") > 0 && Strcasecmp("Cherry", "cherry") == 0;
    assert Strcasecmp("grape", "apple") > 0 && Strcasecmp("grape", "cherry") > 0;
  }

  lemma CaseMismatchListing()
    ensures Records(InOrder(FruitTree())) == "Banana\napple\ncherry\n"
  {
    var ws := ["Banana", "apple", "cherry"];
    assert InOrder(FruitTree()) == ws;
    assert ws[1..] == ["apple", "cherry"] && ws[2..] == ["cherry"];
    assert Records(ws[2..]) == "cherry\n";
    assert Records(ws[1..]) == "apple\ncherry\n";
  }
}
