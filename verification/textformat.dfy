/** The dictionary's text file: one word per line, each ended by '\n'.
    Saving writes the in-order words; loading reads the file line by line
    with `fgets`, strips one trailing '\n' from each line and inserts the
    lines in file order, giving up on the first insertion that fails. */
module TextFormat {
  import opened CStrings
  import opened WordTree
  import opened Maybe

  /** What `fprintf(file, "%s\n", word)` writes for each word in turn. */
  function Records(ws: seq<string>): string
  {
    if ws == [] then [] else ws[0] + "\n" + Records(ws[1..])
  }

  /** The length of the first line `fgets` returns from `text`: up to and
      including the first '\n', or all of `text`. */
  function LineLength(text: string): (k: nat)
    requires text != []
    ensures 0 < k <= |text|
    ensures forall i :: 0 <= i < k - 1 ==> text[i] != '\n'
    ensures k < |text| ==> text[k - 1] == '\n'
  {
    if text[0] == '\n' || |text| == 1 then 1 else 1 + LineLength(text[1..])
  }

  /** The successive lines `fgets` returns for a file holding `text`, each
      keeping its '\n' (the last line may lack one). */
  function FgetsLines(text: string): seq<string>
    decreases |text|
  {
    if text == [] then [] else [text[..LineLength(text)]] + FgetsLines(text[LineLength(text)..])
  }

  /** Drops one trailing '\n', if there is one. */
  function StripNewline(line: string): string
  {
    if |line| > 0 && line[|line| - 1] == '\n' then line[..|line| - 1] else line
  }

  /** The words a load inserts, in file order. */
  function Stripped(lines: seq<string>): seq<string>
  {
    seq(|lines|, i requires 0 <= i < |lines| => StripNewline(lines[i]))
  }

  /** Loading `lines` into a dictionary holding `t`: no dictionary at all as
      soon as a line repeats a stored word. */
  function LoadFrom(t: Tree, lines: seq<string>): Option<Tree>
    decreases |lines|
  {
    if lines == [] then Some(t)
    else
      var w := StripNewline(lines[0]);
      if w in Words(t) then None else LoadFrom(TreeInsert(t, w), lines[1..])
  }

  /** `read_dict_from_text_file` on an opened file, as a value. */
  function LoadLines(lines: seq<string>): Option<Tree>
  {
    LoadFrom(Nil, lines)
  }

  ghost predicate NoDuplicates(ws: seq<string>)
  {
    forall i, j :: 0 <= i < j < |ws| ==> ws[i] != ws[j]
  }

  // ---------------------------------------------------------------------

  lemma {:induction false} RecordsAppend(a: seq<string>, b: seq<string>)
    ensures Records(a + b) == Records(a) + Records(b)
  {
    if a == [] {
      assert a + b == b;
    } else {
      assert (a + b)[0] == a[0] && (a + b)[1..] == a[1..] + b;
      RecordsAppend(a[1..], b);
    }
  }

  /** The records of a tree's in-order words: the left subtree's, the
      node's, then the right subtree's. */
  lemma RecordsBranch(l: Tree, w: string, r: Tree)
    ensures Records(InOrder(Branch(l, w, r))) == Records(InOrder(l)) + (w + "\n") + Records(InOrder(r))
  {
    var a, b := InOrder(l), InOrder(r);
    RecordsAppend(a + [w], b);
    RecordsAppend(a, [w]);
    assert Records([w]) == w + "\n" + Records([]);
  }

  /** Appending a tree's records to `sink` in the traversal's own steps:
      the left subtree's records, the node's word and '\n', then the right
      subtree's records. */
  lemma RecordsBranchAfter(sink: string, l: Tree, w: string, r: Tree)
    ensures sink + Records(InOrder(Branch(l, w, r))) ==
              ((sink + Records(InOrder(l))) + w + "\n") + Records(InOrder(r))
  {
    var a, b := Records(InOrder(l)), Records(InOrder(r));
    RecordsBranch(l, w, r);
    assert sink + ((a + (w + "\n")) + b) == (sink + (a + (w + "\n"))) + b;
    assert sink + (a + (w + "\n")) == (sink + a) + (w + "\n");
    assert (sink + a) + (w + "\n") == (sink + a) + w + "\n";
  }

  /** `fgets` reads the whole file: its lines put back together give the
      text, every line is non-empty and holds no '\n' before its last
      character, and every line but the last ends with '\n'. */
  lemma {:induction false} FgetsLinesCover(text: string)
    ensures Concat(FgetsLines(text)) == text
    ensures forall i :: 0 <= i < |FgetsLines(text)| ==> OneLine(FgetsLines(text)[i])
    ensures forall i :: 0 <= i < |FgetsLines(text)| - 1 ==> EndsWithNewline(FgetsLines(text)[i])
    decreases |text|
  {
    if text != [] {
      var k := LineLength(text);
      FgetsLinesCover(text[k..]);
      FgetsLinesSplit(text);
      assert text == text[..k] + text[k..];
      var rest := FgetsLines(text[k..]);
      assert FgetsLines(text) == [text[..k]] + rest;
      assert Concat([text[..k]] + rest) == text[..k] + Concat(rest);
      if rest != [] {
        assert text[k..] != [];
      }
    }
  }

  /** Each line `fgets` returns stops at its first '\n'. */
  lemma {:induction false} FgetsLinesSplit(text: string)
    ensures forall i :: 0 <= i < |FgetsLines(text)| ==> OneLine(FgetsLines(text)[i])
    decreases |text|
  {
    if text != [] {
      var k := LineLength(text);
      FgetsLinesSplit(text[k..]);
      var lines, rest := FgetsLines(text), FgetsLines(text[k..]);
      assert lines == [text[..k]] + rest;
      assert OneLine(text[..k]);
      forall i | 1 <= i < |lines| ensures OneLine(lines[i]) {
        assert lines[i] == rest[i - 1];
      }
    }
  }

  /** A non-empty line with no '\n' before its last character. */
  ghost predicate OneLine(line: string)
  {
    line != [] && forall k :: 0 <= k < |line| - 1 ==> line[k] != '\n'
  }

  ghost predicate EndsWithNewline(line: string)
  {
    |line| > 0 && line[|line| - 1] == '\n'
  }

  function Concat(lines: seq<string>): string
  {
    if lines == [] then [] else lines[0] + Concat(lines[1..])
  }

  /** A word without '\n' followed by '\n' is read back as one line. */
  lemma {:induction false} LineLengthOfRecord(w: string, rest: string)
    requires '\n' !in w
    ensures LineLength(w + "\n" + rest) == |w| + 1
  {
    if w != [] {
      assert (w + "\n" + rest)[1..] == w[1..] + "\n" + rest;
      LineLengthOfRecord(w[1..], rest);
    }
  }

  /** Reading back what was saved yields the saved words, one per line. */
  lemma {:induction false} FgetsRecords(ws: seq<string>)
    requires forall i :: 0 <= i < |ws| ==> '\n' !in ws[i]
    ensures Stripped(FgetsLines(Records(ws))) == ws
  {
    if ws != [] {
      FgetsFirstRecord(ws);
      FgetsRecords(ws[1..]);
      assert StripNewline(ws[0] + "\n") == ws[0];
    }
  }

  /** The first line read back from saved records is the first word and
      its '\n'; the rest are read from the remaining records. */
  lemma FgetsFirstRecord(ws: seq<string>)
    requires ws != [] && '\n' !in ws[0]
    ensures FgetsLines(Records(ws)) == [ws[0] + "\n"] + FgetsLines(Records(ws[1..]))
  {
    var text := Records(ws);
    var rest := Records(ws[1..]);
    assert text == ws[0] + "\n" + rest;
    LineLengthOfRecord(ws[0], rest);
    var k := |ws[0]| + 1;
    assert text[..k] == ws[0] + "\n" && text[k..] == rest;
  }

  lemma StrippedCons(lines: seq<string>)
    requires lines != []
    ensures Stripped(lines) == [StripNewline(lines[0])] + Stripped(lines[1..])
  {
  }

  lemma NoDuplicatesCons(w: string, tail: seq<string>)
    ensures NoDuplicates([w] + tail) <==> w !in tail && NoDuplicates(tail)
  {
    var ws := [w] + tail;
    if w !in tail && NoDuplicates(tail) {
      forall i, j | 0 <= i < j < |ws| ensures ws[i] != ws[j] {
        if i == 0 {
          assert ws[j] == tail[j - 1];
        } else {
          assert ws[i] == tail[i - 1] && ws[j] == tail[j - 1];
        }
      }
    }
    if NoDuplicates(ws) {
      forall i, j | 0 <= i < j < |tail| ensures tail[i] != tail[j] {
        assert tail[i] == ws[i + 1] && tail[j] == ws[j + 1];
      }
      forall k | 0 <= k < |tail| ensures tail[k] != w {
        assert ws[0] == w && ws[k + 1] == tail[k];
      }
    }
  }

  /** Loading succeeds exactly when no stripped line repeats a stored word
      or an earlier line. */
  lemma {:induction false} LoadFromSucceeds(t: Tree, lines: seq<string>)
    decreases |lines|
    ensures LoadFrom(t, lines).Some? <==>
              NoDuplicates(Stripped(lines)) && forall x | x in Stripped(lines) :: x !in Words(t)
  {
    if lines != [] {
      var w := StripNewline(lines[0]);
      var tail := Stripped(lines[1..]);
      StrippedCons(lines);
      NoDuplicatesCons(w, tail);
      InsertWords(t, w);
      LoadFromSucceeds(TreeInsert(t, w), lines[1..]);
    }
  }

  /** A successful load leaves a search tree holding the old words plus the
      stripped lines. */
  lemma {:induction false} LoadFromResult(t: Tree, lines: seq<string>)
    requires SearchTree(t)
    requires LoadFrom(t, lines).Some?
    decreases |lines|
    ensures SearchTree(LoadFrom(t, lines).value)
    ensures forall x :: x in Words(LoadFrom(t, lines).value) <==> x in Words(t) || x in Stripped(lines)
  {
    if lines != [] {
      var w := StripNewline(lines[0]);
      StrippedCons(lines);
      InsertKeepsOrder(t, w);
      InsertWords(t, w);
      LoadFromResult(TreeInsert(t, w), lines[1..]);
    }
  }

  /** Saving a dictionary and loading the file back gives a dictionary with
      the same in-order word list, provided no word holds a '\n'. */
  lemma SaveLoadRoundTrip(t: Tree)
    requires SearchTree(t)
    requires forall w | w in Words(t) :: '\n' !in w
    ensures LoadLines(FgetsLines(Records(InOrder(t)))).Some?
    ensures InOrder(LoadLines(FgetsLines(Records(InOrder(t)))).value) == InOrder(t)
  {
    var ws := InOrder(t);
    InOrderSorted(t);
    var lines := FgetsLines(Records(ws));
    FgetsRecords(ws);
    assert Stripped(lines) == ws;
    forall i, j | 0 <= i < j < |ws| ensures ws[i] != ws[j] {
      assert Strcmp(ws[i], ws[j]) < 0;
    }
    LoadFromSucceeds(Nil, lines);
    LoadFromResult(Nil, lines);
    var u := LoadLines(lines).value;
    InOrderSorted(u);
    SortedUnique(InOrder(u), ws);
  }
}
