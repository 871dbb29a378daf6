/** Reading a command line: the line is split at every single space, the first
    word selects a handler through a table of verbs and synonyms, and the other
    words are joined back with single spaces to form the target. */
module Commands {
  import opened Wrappers

  /** The handlers the verb table can select. */
  datatype Handler = Help | Talk | Meet | Take | Give | Go | ShowItems | Look | Quit | Buy | Steal

  /** The verb table: seventeen verbs, several of them synonyms of one handler. */
  function CommandTable(): map<string, Handler>
  {
    map["help" := Help, "?" := Help,
        "talk" := Talk, "chat" := Talk,
        "meet" := Meet, "greet" := Meet,
        "take" := Take,
        "give" := Give,
        "go" := Go,
        "show_items" := ShowItems, "inventory" := ShowItems,
        "look" := Look,
        "quit" := Quit,
        "buy" := Buy,
        "steal" := Steal, "rob" := Steal, "pickpocket" := Steal]
  }

  /** The verbs that reach each handler, as the help listing groups them. */
  function Verbs(h: Handler): set<string>
  {
    match h
    case Help => {"help", "?"}
    case Talk => {"talk", "chat"}
    case Meet => {"meet", "greet"}
    case Take => {"take"}
    case Give => {"give"}
    case Go => {"go"}
    case ShowItems => {"show_items", "inventory"}
    case Look => {"look"}
    case Quit => {"quit"}
    case Buy => {"buy"}
    case Steal => {"steal", "rob", "pickpocket"}
  }

  /** The handler a verb selects, if the table has the verb. */
  function Lookup(verb: string): (h: Option<Handler>)
    ensures h.Some? <==> verb in CommandTable()
    ensures h.Some? ==> h.value == CommandTable()[verb]
  {
    var t := CommandTable();
    if verb in t then Some(t[verb]) else None
  }

  /** A verb selects a handler exactly when it is one of that handler's verbs and
      synonyms; every other word is an invalid command. */
  lemma LookupVerbs(verb: string, h: Handler)
    ensures Lookup(verb) == Some(h) <==> verb in Verbs(h)
  {
    match h
    case Help =>
    case Talk =>
    case Meet =>
    case Take =>
    case Give =>
    case Go =>
    case ShowItems =>
    case Look =>
    case Quit =>
    case Buy =>
    case Steal =>
  }

  /** The table matches verbs exactly: no capitalisation or spacing is forgiven. */
  lemma ExactVerbs()
    ensures Lookup("Take") == None && Lookup("take ") == None && Lookup("") == None
  {
  }

  /** Splitting at every single space. Two spaces in a row give an empty word, and
      a line without spaces is one word. */
  function Split(s: string): (words: seq<string>)
    ensures |words| >= 1
    ensures forall k :: 0 <= k < |words| ==> ' ' !in words[k]
    ensures ' ' !in s ==> words == [s]
  {
    if s == [] then [""]
    else
      var rest := Split(s[1..]);
      assert s == [s[0]] + s[1..];
      if s[0] == ' ' then [""] + rest
      else [[s[0]] + rest[0]] + rest[1..]
  }

  /** Joining words with single spaces; no words join to the empty string. */
  function Join(words: seq<string>): (s: string)
  {
    if words == [] then ""
    else if |words| == 1 then words[0]
    else words[0] + " " + Join(words[1..])
  }

  /** Joining what was split gives the line back. */
  lemma {:induction false} JoinSplit(s: string)
    ensures Join(Split(s)) == s
  {
    if s != [] {
      JoinSplit(s[1..]);
      var rest := Split(s[1..]);
      if s[0] == ' ' {
        assert ([""] + rest)[1..] == rest;
      } else {
        var words := [[s[0]] + rest[0]] + rest[1..];
        assert words[1..] == rest[1..];
        if |rest| > 1 {
          assert Join(rest) == rest[0] + " " + Join(rest[1..]);
        }
      }
    }
  }

  lemma SplitSpaceFront(t: string)
    ensures Split(" " + t) == [""] + Split(t)
  {
    assert (" " + t)[1..] == t;
  }

  lemma SplitCharFront(c: char, t: string)
    requires c != ' '
    ensures Split([c] + t) == [[c] + Split(t)[0]] + Split(t)[1..]
  {
    assert ([c] + t)[1..] == t;
  }

  /** The step of `SplitJoin` for a first word that is empty. */
  lemma SplitJoinEmptyHead(words: seq<string>)
    requires |words| > 1 && words[0] == []
    requires Split(Join(words[1..])) == words[1..]
    ensures Split(Join(words)) == words
  {
    assert Join(words) == " " + Join(words[1..]);
    SplitSpaceFront(Join(words[1..]));
    assert [""] + words[1..] == words;
  }

  /** The step of `SplitJoin` for a first word that is not empty: its first
      character is split off in front of the rest. */
  lemma SplitJoinCharHead(c: char, word: string, tail: string, more: seq<string>)
    requires c != ' '
    requires Split(word + " " + tail) == [word] + more
    ensures Split(([c] + word) + " " + tail) == [[c] + word] + more
  {
    var t := word + " " + tail;
    assert ([c] + word) + " " + tail == [c] + t;
    SplitCharFront(c, t);
    assert ([word] + more)[1..] == more;
  }

  /** Splitting what was joined gives the words back, as long as no word holds a space. */
  lemma {:induction false} SplitJoin(words: seq<string>)
    requires words != []
    requires forall k :: 0 <= k < |words| ==> ' ' !in words[k]
    ensures Split(Join(words)) == words
    decreases |words|, |words[0]|
  {
    if |words| == 1 {
      assert Split(words[0]) == [words[0]];
    } else if words[0] == [] {
      SplitJoin(words[1..]);
      SplitJoinEmptyHead(words);
    } else {
      var w := words[0];
      var shorter := [w[1..]] + words[1..];
      assert w == [w[0]] + w[1..];
      assert ' ' !in shorter[0] && w[0] != ' ';
      assert forall k :: 1 <= k < |shorter| ==> shorter[k] == words[k];
      SplitJoin(shorter);
      var tail := Join(words[1..]);
      assert Join(shorter) == w[1..] + " " + tail;
      assert Join(words) == ([w[0]] + w[1..]) + " " + tail;
      SplitJoinCharHead(w[0], w[1..], tail, words[1..]);
      assert [w] + words[1..] == words;
    }
  }

  /** A command line read as a verb and a target. */
  datatype Command = Command(verb: string, target: string)

  /** The first word is the verb; the remaining words, joined with single spaces,
      are the target. */
  function Parse(line: string): (c: Command)
    ensures ' ' !in c.verb
    ensures ' ' !in line ==> c == Command(line, "")
  {
    var words := Split(line);
    Command(words[0], Join(words[1..]))
  }

  /** The verb is the text before the first space, and the target is exactly the
      rest of the line after it. */
  lemma {:induction false} ParseRest(line: string)
    ensures var c := Parse(line);
            if ' ' in line then line == c.verb + " " + c.target else line == c.verb && c.target == ""
  {
    var words := Split(line);
    JoinSplit(line);
    if |words| > 1 {
      assert Join(words) == words[0] + " " + Join(words[1..]);
    } else {
      assert Join(words) == words[0];
      assert ' ' !in line;
    }
  }

  /** The handler each line of a session selects, line by line. */
  function Selections(lines: seq<string>): (r: seq<Option<Handler>>)
    ensures |r| == |lines|
  {
    if lines == [] then [] else [Lookup(Parse(lines[0]).verb)] + Selections(lines[1..])
  }

  /** Line k selects the handler its own first word names. */
  lemma {:induction false} SelectionsAt(lines: seq<string>, k: nat)
    requires k < |lines|
    ensures Selections(lines)[k] == Lookup(Parse(lines[k]).verb)
    decreases k
  {
    if k > 0 {
      SelectionsAt(lines[1..], k - 1);
    }
  }
}
