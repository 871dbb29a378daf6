/** Non-player characters: a name, a description, dialogue lines read through a
    wrap-around cursor, and a one-shot "robbed" flag used by stealing. */
module Npcs {
  import opened Wrappers

  /** Why the parameterized constructor refused its arguments, in the order it checks. */
  datatype NpcError = NameEmpty | DescriptionEmpty

  /** Where the cursor goes after one line is read from a list of `count` lines:
      one step forward, wrapping to the first line after the last. */
  function NextCursor(cursor: nat, count: nat): (r: nat)
    requires cursor < count
    ensures r < count
    ensures r == (cursor + 1) % count
  {
    if cursor < count - 1 then cursor + 1 else 0
  }

  /** The cursor after `k` reads starting from `cursor`. */
  function CursorAfter(cursor: nat, count: nat, k: nat): (r: nat)
    requires cursor < count
    ensures r < count
    decreases k
  {
    if k == 0 then cursor else CursorAfter(NextCursor(cursor, count), count, k - 1)
  }

  /** The lines that `k` successive reads return, starting from `cursor`. */
  function Dialogue(messages: seq<string>, cursor: nat, k: nat): (r: seq<string>)
    requires cursor < |messages|
    ensures |r| == k
    decreases k
  {
    if k == 0 then [] else [messages[cursor]] + Dialogue(messages, NextCursor(cursor, |messages|), k - 1)
  }

  /** Before the end of the dialogue is reached, k reads move the cursor k places. */
  lemma {:induction false} CursorAfterAdvances(cursor: nat, count: nat, k: nat)
    requires cursor + k < count
    ensures CursorAfter(cursor, count, k) == cursor + k
    decreases k
  {
    if k > 0 {
      CursorAfterAdvances(cursor + 1, count, k - 1);
    }
  }

  /** Reads compose: j reads followed by k reads are j + k reads. */
  lemma {:induction false} CursorAfterSplit(cursor: nat, count: nat, j: nat, k: nat)
    requires cursor < count
    ensures CursorAfter(cursor, count, j + k) == CursorAfter(CursorAfter(cursor, count, j), count, k)
    decreases j
  {
    if j > 0 {
      CursorAfterSplit(NextCursor(cursor, count), count, j - 1, k);
    }
  }

  /** The dialogue is periodic: a full round of reads from any position comes back to it. */
  lemma CursorAfterPeriod(cursor: nat, count: nat)
    requires cursor < count
    ensures CursorAfter(cursor, count, count) == cursor
  {
    // count - 1 - cursor reads reach the last line, one more wraps to the first,
    // and cursor further reads come back.
    CursorAfterAdvances(cursor, count, count - 1 - cursor);
    CursorAfterSplit(cursor, count, count - 1 - cursor, 1);
    CursorAfterSplit(cursor, count, count - cursor, cursor);
    if cursor > 0 {
      CursorAfterAdvances(0, count, cursor);
    }
  }

  /** Reads that do not pass the end return a slice of the lines in order. */
  lemma {:induction false} DialogueIsSlice(messages: seq<string>, cursor: nat, k: nat)
    requires cursor < |messages| && cursor + k <= |messages|
    ensures Dialogue(messages, cursor, k) == messages[cursor..cursor + k]
    decreases k
  {
    if k > 0 {
      var next := NextCursor(cursor, |messages|);
      if k == 1 {
        assert Dialogue(messages, next, 0) == [];
      } else {
        assert next == cursor + 1;
        DialogueIsSlice(messages, next, k - 1);
      }
    }
  }

  /** The cyclic law: from the first line, as many reads as there are lines return
      every line in order and leave the cursor on the first line again. */
  lemma FullCycle(messages: seq<string>)
    requires messages != []
    ensures Dialogue(messages, 0, |messages|) == messages
    ensures CursorAfter(0, |messages|, |messages|) == 0
  {
    DialogueIsSlice(messages, 0, |messages|);
    CursorAfterPeriod(0, |messages|);
  }

  /** Reads compose: the lines of j + k reads are those of j reads followed by k more. */
  lemma {:induction false} DialogueSplit(messages: seq<string>, cursor: nat, j: nat, k: nat)
    requires cursor < |messages|
    ensures Dialogue(messages, cursor, j + k)
            == Dialogue(messages, cursor, j) + Dialogue(messages, CursorAfter(cursor, |messages|, j), k)
    decreases j
  {
    if j > 0 {
      DialogueSplit(messages, NextCursor(cursor, |messages|), j - 1, k);
    }
  }

  /** A full round from any position returns the lines rotated to start there. */
  lemma DialogueRotation(messages: seq<string>, cursor: nat)
    requires cursor < |messages|
    ensures Dialogue(messages, cursor, |messages|) == messages[cursor..] + messages[..cursor]
  {
    var n := |messages|;
    DialogueSplit(messages, cursor, n - cursor, cursor);
    DialogueIsSlice(messages, cursor, n - 1 - cursor);
    DialogueSplit(messages, cursor, n - 1 - cursor, 1);
    CursorAfterAdvances(cursor, n, n - 1 - cursor);
    CursorAfterSplit(cursor, n, n - 1 - cursor, 1);
    assert messages[cursor..n - 1] + [messages[n - 1]] == messages[cursor..];
    if cursor > 0 {
      DialogueIsSlice(messages, 0, cursor);
    }
  }

  class NPC {
    const name: string
    const description: string
    /** Index of the line the next read returns. */
    var messageNum: nat
    var messages: seq<string>
    var robbed: bool

    /** The cursor points into the dialogue, or is 0 while there is none. */
    ghost predicate Valid()
      reads this`messageNum, this`messages
    {
      messageNum == 0 || messageNum < |messages|
    }

    /** The default constructor: a stock NPC with two lines of dialogue. */
    constructor Default()
      ensures Valid()
      ensures name == "Unnamed" && description == "They are a mystery..."
      ensures messages == ["Where am I? Who am I? What am I?\n",
                           "The unnamed NPC gazes confusedly into the distance.\n"]
      ensures messageNum == 0 && !robbed
    {
      name := "Unnamed";
      description := "They are a mystery...";
      messageNum := 0;
      robbed := false;
      messages := ["Where am I? Who am I? What am I?\n",
                   "The unnamed NPC gazes confusedly into the distance.\n"];
    }

    /** The part of the parameterized constructor that runs once its checks have passed. */
    constructor Named(name: string, description: string)
      requires name != "" && description != ""
      ensures Valid()
      ensures this.name == name && this.description == description
      ensures messages == [] && messageNum == 0 && !robbed
    {
      this.name := name;
      this.description := description;
      messageNum := 0;
      robbed := false;
      messages := [];
    }

    /** A copy of another NPC, as made when an NPC is passed and stored by value. */
    constructor Copy(other: NPC)
      requires other.Valid()
      ensures Valid()
      ensures name == other.name && description == other.description
      ensures messages == other.messages && messageNum == other.messageNum && robbed == other.robbed
    {
      name := other.name;
      description := other.description;
      messageNum := other.messageNum;
      messages := other.messages;
      robbed := other.robbed;
    }

    /** The parameterized constructor: refuses an empty name, then an empty description. */
    static method Create(name: string, description: string) returns (r: Result<NPC, NpcError>)
      ensures r.Success? <==> name != "" && description != ""
      ensures r == Failure(NameEmpty) <==> name == ""
      ensures r.Success? ==> fresh(r.value) && r.value.Valid()
      ensures r.Success? ==> r.value.name == name && r.value.description == description
      ensures r.Success? ==> r.value.messages == [] && r.value.messageNum == 0 && !r.value.robbed
    {
      if name == "" {
        return Failure(NameEmpty);
      }
      if description == "" {
        return Failure(DescriptionEmpty);
      }
      var npc := new NPC.Named(name, description);
      r := Success(npc);
    }

    /** Returns the line under the cursor and moves the cursor on, wrapping after the
        last line. Reading an NPC without dialogue is an out-of-range access. */
    method GetCurrentMessage() returns (m: string)
      requires Valid() && messages != []
      modifies this`messageNum
      ensures Valid()
      ensures m == messages[old(messageNum)]
      ensures [m] == Dialogue(messages, old(messageNum), 1)
      ensures messageNum == NextCursor(old(messageNum), |messages|)
    {
      m := messages[messageNum];
      if messageNum < |messages| - 1 {
        messageNum := messageNum + 1;
      } else {
        messageNum := 0;
      }
    }

    /** Appends one line at the back of the dialogue. */
    method AddMessage(message: string)
      requires Valid()
      modifies this`messages
      ensures Valid()
      ensures messages == old(messages) + [message]
    {
      messages := messages + [message];
    }
  }
}
