/** The per-word part of the spell checker: each whitespace-separated token
    is cleaned in place to its lower-cased letters, looked up in the
    dictionary, written out with a "[X]" marker when the lookup misses, and
    followed by a newline or a space depending on the character that came
    after it in the input. A `misspelled` flag, set by a miss and cleared at
    the end of a line, puts an extra space before every later word of the
    line. */
module SpellCheck {
  import opened CStrings
  import opened WordTree
  import opened Maybe
  import opened Dictionaries

  /** A token as `fscanf("%s")` reads it, and whether the character that
      `fgetc` reads right after it is '\n'. */
  datatype Token = Token(text: string, newlineFollows: bool)

  /** The C string held by a buffer: the characters before the first NUL. */
  function CStr(s: string): (c: string)
    ensures |c| <= |s| && c == s[..|c|]
    ensures forall k :: 0 <= k < |c| ==> c[k] != '\0'
    ensures |c| < |s| ==> s[|c|] == '\0'
  {
    if s == [] || s[0] == '\0' then [] else [s[0]] + CStr(s[1..])
  }

  /** The cleanup of one token: its letters, in order, each lower-cased. */
  function Clean(s: string): string
  {
    if s == [] then []
    else Clean(s[..|s| - 1]) + (if IsAlpha(s[|s| - 1]) then [ToLower(s[|s| - 1])] else [])
  }

  /** The cleanup loop of `spell_check_file`: the read index `i` runs over
      the C string in `word` (whose terminator is at the ghost index `n`),
      the write index `j` trails it, and each letter is copied down to `j`
      lower-cased; a NUL is then written at `j`. Nothing past `j` changes. */
  method CleanInPlace(word: array<char>, ghost n: nat) returns (j: nat)
    requires n < word.Length && word[n] == '\0'
    requires forall k :: 0 <= k < n ==> word[k] != '\0'
    modifies word
    ensures j <= n
    ensures word[..j] == Clean(old(word[..n]))
    ensures word[j] == '\0'
    ensures word[j + 1..] == old(word[j + 1..])
  {
    var i := 0;
    j := 0;
    while word[i] != '\0'
      invariant j <= i <= n
      invariant word[..j] == Clean(old(word[..i]))
      invariant forall k :: j <= k < word.Length ==> word[k] == old(word[k])
      decreases n - i
    {
      assert old(word[..i + 1]) == old(word[..i]) + [old(word[i])];
      assert old(word[..i + 1])[..i] == old(word[..i]);
      if IsAlpha(word[i]) {
        ghost var before := word[..];
        word[j] := ToLower(word[i]);
        assert word[..j + 1] == before[..j] + [ToLower(old(word[i]))];
        j := j + 1;
      }
      i := i + 1;
    }
    word[j] := '\0';
    assert word[j + 1..] == old(word[j + 1..]);
  }

  /** The output for one word: a leading space while `misspelled` is set,
      the cleaned word, "[X]" when the lookup missed, then '\n' or ' '. */
  function Emit(word: string, found: bool, misspelled: bool, newline: bool): string
  {
    (if misspelled then " " else "") + word + (if found then "" else "[X]") + (if newline then "\n" else " ")
  }

  /** The flag after one word: set by a miss, cleared at a line end. */
  function NextFlag(misspelled: bool, found: bool, newline: bool): bool
  {
    if newline then false else misspelled || !found
  }

  /** The cleaned word of a token. */
  function Word(tok: Token): string
  {
    Clean(CStr(tok.text))
  }

  /** One token after cleanup and lookup: the word printed, whether
      `dict_find` found it, and whether a '\n' follows it. */
  datatype Checked = Checked(word: string, found: bool, newline: bool)

  function Check(t: Tree, tok: Token): Checked
  {
    Checked(Word(tok), Search(t, Word(tok)), tok.newlineFollows)
  }

  function Checks(t: Tree, toks: seq<Token>): seq<Checked>
  {
    seq(|toks|, i requires 0 <= i < |toks| => Check(t, toks[i]))
  }

  /** What the checker prints for the checked words `cs` when the flag
      starts as `m`. */
  function Layout(cs: seq<Checked>, m: bool): string
  {
    if cs == [] then []
    else Emit(cs[0].word, cs[0].found, m, cs[0].newline) + Layout(cs[1..], NextFlag(m, cs[0].found, cs[0].newline))
  }

  /** The flag after `cs`, starting from `m`. */
  function FlagAfter(cs: seq<Checked>, m: bool): bool
  {
    if cs == [] then m else FlagAfter(cs[1..], NextFlag(m, cs[0].found, cs[0].newline))
  }

  /** What the checker prints for a whole file of tokens. */
  function Render(t: Tree, toks: seq<Token>): string
  {
    Layout(Checks(t, toks), false)
  }

  /** The tree `spell_check_file` consults: a NULL dictionary finds nothing,
      exactly like an empty one. */
  ghost function Consulted(dict: Dictionary?): Tree
    reads dict
  {
    if dict == null then Nil else dict.Contents()
  }

  /** The cleanup and lookup of one token: it is copied with its terminator
      into a fresh buffer, cleaned in place and looked up with `dict_find`. */
  method CheckToken(dict: Dictionary?, tok: Token) returns (cleaned: string, found: bool)
    requires dict != null ==> dict.Valid()
    ensures Checked(cleaned, found, tok.newlineFollows) == Check(Consulted(dict), tok)
  {
    var word := new char[|tok.text| + 1](k requires 0 <= k <= |tok.text| => if k < |tok.text| then tok.text[k] else '\0');
    ghost var n := |CStr(tok.text)|;
    assert word[..n] == CStr(tok.text);
    var j := CleanInPlace(word, n);
    cleaned := word[..j];
    var r := DictFind(dict, Some(cleaned));
    found := r == 1;
  }

  /** The printing of one word by `spell_check_file`, branch by branch:
      what is printed and the new value of the `misspelled` flag. */
  method PrintWord(cleaned: string, found: bool, misspelled: bool, newline: bool) returns (text: string, flag: bool)
    ensures text == Emit(cleaned, found, misspelled, newline)
    ensures flag == NextFlag(misspelled, found, newline)
  {
    text := "";
    flag := misspelled;
    if !found {
      if flag {
        text := text + " ";
      }
      text := text + cleaned + "[X]";
      flag := true;
    } else {
      if flag {
        text := text + " ";
      }
      text := text + cleaned;
    }
    assert text == (if misspelled then " " else "") + cleaned + (if found then "" else "[X]");
    if newline {
      text := text + "\n";
      flag := false;
    } else {
      text := text + " ";
    }
  }

  /** The token loop of `spell_check_file`: each token is cleaned and
      looked up, then printed by the layout rule. */
  method SpellCheckTokens(dict: Dictionary?, tokens: seq<Token>) returns (out: string)
    requires dict != null ==> dict.Valid()
    ensures out == Render(Consulted(dict), tokens)
  {
    ghost var cs := Checks(Consulted(dict), tokens);
    out := [];
    var misspelled := false;
    var i := 0;
    while i < |tokens|
      invariant 0 <= i <= |tokens|
      invariant out + Layout(cs[i..], misspelled) == Layout(cs, false)
    {
      var tok := tokens[i];
      var cleaned, found := CheckToken(dict, tok);
      ghost var before := misspelled;
      var text;
      text, misspelled := PrintWord(cleaned, found, misspelled, tok.newlineFollows);
      LayoutStep(out, text, cs, i, before);
      out := out + text;
      i := i + 1;
    }
  }

  /** Printing from the `i`-th word on is printing that word, then the rest
      with the updated flag: what the loop has printed so far grows by the
      word's text. */
  lemma LayoutStep(out: string, text: string, cs: seq<Checked>, i: nat, m: bool)
    requires i < |cs|
    requires text == Emit(cs[i].word, cs[i].found, m, cs[i].newline)
    ensures out + Layout(cs[i..], m) == (out + text) + Layout(cs[i + 1..], NextFlag(m, cs[i].found, cs[i].newline))
  {
    assert cs[i..][0] == cs[i] && cs[i..][1..] == cs[i + 1..];
  }

  /** `spell_check_file`: -1 and a failure message when the file cannot be
      opened (`file` is None), otherwise 0 and the checked text. */
  method SpellCheckFile(dict: Dictionary?, file: Option<seq<Token>>) returns (status: int, out: string)
    requires dict != null ==> dict.Valid()
    ensures file.None? ==> status == -1 && out == "Spell check failed\n"
    ensures file.Some? ==> status == 0 && out == Render(Consulted(dict), file.value)
  {
    if file.None? {
      return -1, "Spell check failed\n";
    }
    out := SpellCheckTokens(dict, file.value);
    status := 0;
  }

  // ---------------------------------------------------------------------
  // Cleanup

  /** The letters of `s` in order, read from the front. */
  function Letters(s: string): string
  {
    if s == [] then [] else (if IsAlpha(s[0]) then [s[0]] else []) + Letters(s[1..])
  }

  lemma {:induction false} CleanAppend(a: string, b: string)
    ensures Clean(a + b) == Clean(a) + Clean(b)
    decreases |b|
  {
    if b == [] {
      assert a + b == a;
    } else {
      var b' := b[..|b| - 1];
      assert (a + b)[..|a + b| - 1] == a + b';
      assert (a + b)[|a + b| - 1] == b[|b| - 1];
      CleanAppend(a, b');
    }
  }

  /** The cleaned word holds exactly the letters of the token, in their
      original order, each lower-cased. */
  lemma {:induction false} CleanIsLoweredLetters(s: string)
    ensures Clean(s) == LowerStr(Letters(s))
  {
    if s != [] {
      CleanIsLoweredLetters(s[1..]);
      assert s == [s[0]] + s[1..];
      CleanAppend([s[0]], s[1..]);
      assert Clean([s[0]]) == if IsAlpha(s[0]) then [ToLower(s[0])] else [];
    }
  }

  /** The cleaned word is made of lower-case letters and is no longer than
      the token: the write index never passes the read index. */
  lemma {:induction false} CleanShape(s: string)
    ensures |Clean(s)| <= |s|
    ensures forall k :: 0 <= k < |Clean(s)| ==> IsLower(Clean(s)[k])
  {
    if s != [] {
      CleanShape(s[..|s| - 1]);
    }
  }

  /** A word of lower-case letters is left as it is. */
  lemma {:induction false} CleanOfLower(s: string)
    requires forall k :: 0 <= k < |s| ==> IsLower(s[k])
    ensures Clean(s) == s
  {
    if s != [] {
      CleanOfLower(s[..|s| - 1]);
    }
  }

  /** Cleaning twice is cleaning once. */
  lemma CleanIdempotent(s: string)
    ensures Clean(Clean(s)) == Clean(s)
  {
    CleanShape(s);
    CleanOfLower(Clean(s));
  }

  /** A token cleans to the empty word exactly when it has no letter. */
  lemma {:induction false} CleanEmpty(s: string)
    ensures Clean(s) == [] <==> forall k :: 0 <= k < |s| ==> !IsAlpha(s[k])
  {
    if s != [] {
      var s' := s[..|s| - 1];
      CleanEmpty(s');
      if Clean(s) == [] {
        forall k | 0 <= k < |s| ensures !IsAlpha(s[k]) {
          if k < |s| - 1 { assert s[k] == s'[k]; }
        }
      }
      if forall k :: 0 <= k < |s| ==> !IsAlpha(s[k]) {
        forall k | 0 <= k < |s'| ensures !IsAlpha(s'[k]) {
          assert s'[k] == s[k];
        }
      }
    }
  }

  // ---------------------------------------------------------------------
  // Layout

  function CountChar(s: string, c: char): nat
  {
    if s == [] then 0 else (if s[0] == c then 1 else 0) + CountChar(s[1..], c)
  }

  /** The number of words directly followed by '\n'. */
  function Lines(cs: seq<Checked>): nat
  {
    if cs == [] then 0 else (if cs[0].newline then 1 else 0) + Lines(cs[1..])
  }

  /** The number of words the dictionary missed. */
  function Misses(cs: seq<Checked>): nat
  {
    if cs == [] then 0 else (if cs[0].found then 0 else 1) + Misses(cs[1..])
  }

  /** Every checked word is made of lower-case letters. */
  ghost predicate Lettered(cs: seq<Checked>)
  {
    forall i, k :: 0 <= i < |cs| && 0 <= k < |cs[i].word| ==> IsLower(cs[i].word[k])
  }

  lemma ChecksLettered(t: Tree, toks: seq<Token>)
    ensures Lettered(Checks(t, toks))
  {
    forall i | 0 <= i < |toks| {
      CleanShape(CStr(toks[i].text));
    }
  }

  lemma {:induction false} CountAppend(a: string, b: string, c: char)
    ensures CountChar(a + b, c) == CountChar(a, c) + CountChar(b, c)
  {
    if a == [] {
      assert a + b == b;
    } else {
      assert (a + b)[0] == a[0] && (a + b)[1..] == a[1..] + b;
      CountAppend(a[1..], b, c);
    }
  }

  /** A word of lower-case letters holds no other character. */
  lemma {:induction false} CountInWord(w: string, c: char)
    requires !IsLower(c)
    requires forall k :: 0 <= k < |w| ==> IsLower(w[k])
    ensures CountChar(w, c) == 0
  {
    if w != [] {
      CountInWord(w[1..], c);
    }
  }

  /** The output of one word holds one '\n' exactly when a newline follows
      the word, and one '[' exactly when the word was missed. */
  lemma EmitCounts(w: string, found: bool, m: bool, newline: bool)
    requires forall k :: 0 <= k < |w| ==> IsLower(w[k])
    ensures CountChar(Emit(w, found, m, newline), '\n') == (if newline then 1 else 0)
    ensures CountChar(Emit(w, found, m, newline), '[') == (if found then 0 else 1)
  {
    var lead: string := if m then " " else "";
    var mark: string := if found then "" else "[X]";
    var sep: string := if newline then "\n" else " ";
    CountInWord(w, '\n');
    CountInWord(w, '[');
    CountAppend(lead, w, '\n');
    CountAppend(lead + w, mark, '\n');
    CountAppend(lead + w + mark, sep, '\n');
    CountAppend(lead, w, '[');
    CountAppend(lead + w, mark, '[');
    CountAppend(lead + w + mark, sep, '[');
    assert CountChar("[X]", '\n') == 0 && CountChar("[X]", '[') == 1;
  }

  /** The output holds one '\n' per word directly followed by '\n', and one
      "[X]" marker per missed word. */
  lemma {:induction false} LayoutCounts(cs: seq<Checked>, m: bool)
    requires Lettered(cs)
    ensures CountChar(Layout(cs, m), '\n') == Lines(cs)
    ensures CountChar(Layout(cs, m), '[') == Misses(cs)
  {
    if cs != [] {
      var c := cs[0];
      var head := Emit(c.word, c.found, m, c.newline);
      var m' := NextFlag(m, c.found, c.newline);
      assert Lettered(cs[1..]) by {
        forall i, k | 0 <= i < |cs| - 1 && 0 <= k < |cs[1..][i].word| ensures IsLower(cs[1..][i].word[k]) {
          assert cs[1..][i] == cs[i + 1];
        }
      }
      LayoutCounts(cs[1..], m');
      EmitCounts(c.word, c.found, m, c.newline);
      CountAppend(head, Layout(cs[1..], m'), '\n');
      CountAppend(head, Layout(cs[1..], m'), '[');
    }
  }

  lemma RenderCounts(t: Tree, toks: seq<Token>)
    ensures CountChar(Render(t, toks), '\n') == Lines(Checks(t, toks))
    ensures CountChar(Render(t, toks), '[') == Misses(Checks(t, toks))
  {
    ChecksLettered(t, toks);
    LayoutCounts(Checks(t, toks), false);
  }

  /** The output when every word is found: each word followed by its
      separator, with no marker and no extra space. */
  function Plain(cs: seq<Checked>): string
  {
    if cs == [] then [] else cs[0].word + (if cs[0].newline then "\n" else " ") + Plain(cs[1..])
  }

  lemma {:induction false} AllFoundIsPlain(cs: seq<Checked>)
    requires forall k :: 0 <= k < |cs| ==> cs[k].found
    ensures Layout(cs, false) == Plain(cs)
  {
    if cs != [] {
      AllFoundIsPlain(cs[1..]);
      assert "" + cs[0].word + "" == cs[0].word;
    }
  }

  /** While the flag is set, the next word is preceded by an extra space;
      while it is clear, a non-empty word starts the output directly. */
  lemma ExtraSpace(cs: seq<Checked>, m: bool)
    requires cs != []
    ensures m ==> Layout(cs, m)[0] == ' '
    ensures !m && cs[0].word != [] ==> Layout(cs, m)[0] == cs[0].word[0]
  {
  }

  /** Printing two runs of words one after the other: the second run starts
      with the flag the first one left. */
  lemma {:induction false} LayoutAppend(a: seq<Checked>, b: seq<Checked>, m: bool)
    ensures Layout(a + b, m) == Layout(a, m) + Layout(b, FlagAfter(a, m))
  {
    if a == [] {
      assert a + b == b;
    } else {
      var m' := NextFlag(m, a[0].found, a[0].newline);
      var head := Emit(a[0].word, a[0].found, m, a[0].newline);
      assert (a + b)[0] == a[0] && (a + b)[1..] == a[1..] + b;
      LayoutAppend(a[1..], b, m');
      Regroup(head, Layout(a[1..], m'), Layout(b, FlagAfter(a[1..], m')));
    }
  }

  /** Output pieces regroup freely. */
  lemma Regroup(x: string, y: string, z: string)
    ensures x + (y + z) == (x + y) + z
  {
  }

  /** No word of the run ends a line from index `i` on. */
  ghost predicate LineOpen(cs: seq<Checked>, i: nat)
  {
    forall k :: i <= k < |cs| ==> !cs[k].newline
  }

  /** The flag is set after a run exactly when a word on the still-open
      last line was missed, or the flag was set before and no line has
      ended since. */
  lemma {:induction false} FlagMeaning(cs: seq<Checked>, m: bool)
    ensures FlagAfter(cs, m) <==>
              (m && LineOpen(cs, 0)) || exists i :: 0 <= i < |cs| && !cs[i].found && LineOpen(cs, i)
  {
    if cs != [] {
      var rest := cs[1..];
      var m' := NextFlag(m, cs[0].found, cs[0].newline);
      FlagMeaning(rest, m');
      var Q := exists i :: 0 <= i < |cs| && !cs[i].found && LineOpen(cs, i);
      var Q' := exists i :: 0 <= i < |rest| && !rest[i].found && LineOpen(rest, i);
      assert LineOpen(cs, 0) <==> !cs[0].newline && LineOpen(rest, 0) by {
        forall k | 1 <= k < |cs| ensures cs[k] == rest[k - 1] {}
      }
      if Q' {
        var i :| 0 <= i < |rest| && !rest[i].found && LineOpen(rest, i);
        assert !cs[i + 1].found && LineOpen(cs, i + 1) by {
          forall k | i + 1 <= k < |cs| ensures !cs[k].newline {
            assert cs[k] == rest[k - 1];
          }
        }
      }
      if Q {
        var i :| 0 <= i < |cs| && !cs[i].found && LineOpen(cs, i);
        if i > 0 {
          assert !rest[i - 1].found && LineOpen(rest, i - 1) by {
            forall k | i - 1 <= k < |rest| ensures !rest[k].newline {
              assert rest[k] == cs[k + 1];
            }
          }
        } else {
          assert LineOpen(rest, 0) by {
            forall k | 0 <= k < |rest| ensures !rest[k].newline {
              assert rest[k] == cs[k + 1];
            }
          }
        }
      }
    }
  }

  /** A line end clears the flag. */
  lemma FlagAfterLineEnd(cs: seq<Checked>, m: bool)
    requires cs != [] && cs[|cs| - 1].newline
    ensures !FlagAfter(cs, m)
  {
    FlagMeaning(cs, m);
  }

  lemma ChecksAppend(t: Tree, a: seq<Token>, b: seq<Token>)
    ensures Checks(t, a + b) == Checks(t, a) + Checks(t, b)
  {
    var c, ca, cb := Checks(t, a + b), Checks(t, a), Checks(t, b);
    forall k | 0 <= k < |c| ensures c[k] == (ca + cb)[k] {
      if k < |a| {
        assert (a + b)[k] == a[k];
      } else {
        assert (a + b)[k] == b[k - |a|];
      }
    }
  }

  /** Lines are checked independently: once a run of tokens ends a line,
      what follows is printed as if the file started there. */
  lemma LinesIndependent(t: Tree, a: seq<Token>, b: seq<Token>)
    requires a != [] && a[|a| - 1].newlineFollows
    ensures Render(t, a + b) == Render(t, a) + Render(t, b)
  {
    var ca, cb := Checks(t, a), Checks(t, b);
    ChecksAppend(t, a, b);
    LayoutAppend(ca, cb, false);
    FlagAfterLineEnd(ca, false);
  }

  /** The dictionary after inserting "hello", then "world". */
  function HelloWorld(): Tree
  {
    TreeInsert(TreeInsert(Nil, "hello"), "world")
  }

  /** Two misspelled words on one line: "Helo wrold!" followed by '\n', with
      a dictionary holding "hello" and "world", prints "helo[X]  wrold[X]"
      and a newline -- lower-cased, and with two spaces before the second
      word because the first one was missed. */
  lemma HeloWrold()
    ensures Render(HelloWorld(),
                   [Token("Helo", false), Token("wrold!", true)]) == "helo[X]  wrold[X]\n"
  {
    var t := HelloWorld();
    ChecksOfTwo(t, Token("Helo", false), Token("wrold!", true));
    HeloWroldChecks();
    HeloWroldLayout();
  }

  lemma ChecksOfTwo(t: Tree, a: Token, b: Token)
    ensures Checks(t, [a, b]) == [Check(t, a), Check(t, b)]
  {
  }

  lemma HeloWroldChecks()
    ensures Check(HelloWorld(), Token("Helo", false)) == Checked("helo", false, false)
    ensures Check(HelloWorld(), Token("wrold!", true)) == Checked("wrold", false, true)
  {
    HeloWroldWords();
    HeloWroldMisses();
  }

  lemma HeloWroldLayout()
    ensures Layout([Checked("helo", false, false), Checked("wrold", false, true)], false) == "helo[X]  wrold[X]\n"
  {
    var cs := [Checked("helo", false, false), Checked("wrold", false, true)];
    assert cs[1..] == [Checked("wrold", false, true)] && cs[1..][1..] == [];
    assert Layout(cs[1..], true) == " wrold[X]\n";
    assert Layout(cs, false) == "helo[X] " + Layout(cs[1..], true);
  }

  lemma HeloWroldWords()
    ensures Word(Token("Helo", false)) == "helo" && Word(Token("wrold!", true)) == "wrold"
  {
    assert CStr("Helo") == "Helo" && CStr("wrold!") == "wrold!";
    CleanHelo();
    CleanOfLower("wrold");
    assert Clean("wrold!") == "wrold" by { assert "wrold!"[..5] == "wrold"; }
  }

  lemma CleanHelo()
    ensures Clean("Helo") == "helo"
  {
    assert ToLower('H') == 'h';
    assert Clean("H") == "h" by { assert "H"[..0] == ""; }
    assert Clean("He") == "he" by { assert "He"[..1] == "H"; }
    assert Clean("Hel") == "hel" by { assert "Hel"[..2] == "He"; }
    assert "Helo"[..3] == "Hel";
  }

  lemma HeloWroldMisses()
    ensures !Search(HelloWorld(), "helo")
    ensures !Search(HelloWorld(), "wrold")
  {
    assert Strcasecmp("helo", "hello") > 0 && Strcasecmp("helo", "world") < 0;
    assert Strcasecmp("wrold", "hello") > 0 && Strcasecmp("wrold", "world") > 0;
  }
}
