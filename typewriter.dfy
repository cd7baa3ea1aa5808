/** One step of the contact section's typewriter: the shown text grows by one
    character until it is the whole message, then shrinks by one until it is
    empty, and then the next message (cyclically) is typed. */
module Typewriter {

  /** The messages cycled through, in order. */
  const ContactMessages: seq<string> := [
    "Ready to build intelligent solutions!",
    "Passionate about ML Engineering!",
    "Expert in Data Pipeline Architecture!",
    "Specialized in Agentic AI Systems!",
    "Ready to build intelligent solutions!"
  ]

  /** The pauses, in milliseconds, before the next step. */
  const TypeDelay: nat := 100
  const DeleteDelay: nat := 50
  const FullPause: nat := 2000
  const EmptyPause: nat := 500

  /** The closure's variables: which message, whether deleting, and the text
      shown. */
  datatype Cursor = Cursor(index: nat, deleting: bool, text: string)

  /** JavaScript's s.substring(0, end): the end is clamped into [0, |s|]. */
  function Prefix(s: string, end: int): (r: string)
    ensures r <= s
    ensures |r| == if end < 0 then 0 else if end > |s| then |s| else end
  {
    if end < 0 then [] else if end > |s| then s else s[..end]
  }

  /** The step: the new cursor and the delay before the next step. */
  function Step(messages: seq<string>, c: Cursor): (Cursor, nat)
    requires c.index < |messages|
  {
    var full := messages[c.index];
    var text := if c.deleting then Prefix(full, |c.text| - 1) else Prefix(full, |c.text| + 1);
    if !c.deleting && text == full then
      (Cursor(c.index, true, text), FullPause)
    else if c.deleting && text == [] then
      (Cursor((c.index + 1) % |messages|, false, text), EmptyPause)
    else
      (Cursor(c.index, c.deleting, text), if c.deleting then DeleteDelay else TypeDelay)
  }

  /** The shown text is a prefix of the current message. */
  predicate Shows(messages: seq<string>, c: Cursor)
  {
    c.index < |messages| && c.text <= messages[c.index]
  }

  /** n steps from c. */
  function Steps(messages: seq<string>, c: Cursor, n: nat): Cursor
    requires c.index < |messages|
    decreases n
  {
    if n == 0 then c else Steps(messages, Step(messages, c).0, n - 1)
  }

  /** A step keeps the text a prefix of the current message; it starts
      deleting exactly when typing reaches the whole message, and it moves to
      the next message, modulo the number of messages, exactly when deleting
      reaches the empty text. */
  lemma StepEffect(messages: seq<string>, c: Cursor)
    requires c.index < |messages|
    ensures Shows(messages, Step(messages, c).0)
    ensures var n := Step(messages, c).0;
      (n.deleting && !c.deleting) <==> (!c.deleting && n.text == messages[c.index])
    ensures var n := Step(messages, c).0;
      n.index == if c.deleting && n.text == [] then (c.index + 1) % |messages| else c.index
    ensures var n := Step(messages, c).0;
      c.deleting && n.text == [] ==> !n.deleting
    ensures var n := Step(messages, c).0;
      c.deleting && n.text != [] ==> n.deleting
  {
  }

  /** Typing from a strict prefix of length j reaches the whole message in
      |m| - j steps and switches to deleting. */
  lemma {:induction false} TypingPhase(messages: seq<string>, i: nat, j: nat)
    requires i < |messages| && j < |messages[i]|
    ensures Steps(messages, Cursor(i, false, messages[i][..j]), |messages[i]| - j) ==
            Cursor(i, true, messages[i])
    decreases |messages[i]| - j
  {
    var m := messages[i];
    var next := Step(messages, Cursor(i, false, m[..j])).0;
    if j + 1 == |m| {
      assert m[..j + 1] == m;
      assert next == Cursor(i, true, m);
    } else {
      assert next == Cursor(i, false, m[..j + 1]);
      TypingPhase(messages, i, j + 1);
    }
  }

  /** Deleting from a prefix of length j > 0 reaches the empty text in j
      steps and moves to the next message. */
  lemma {:induction false} DeletingPhase(messages: seq<string>, i: nat, j: nat)
    requires i < |messages| && 0 < j <= |messages[i]|
    ensures Steps(messages, Cursor(i, true, messages[i][..j]), j) ==
            Cursor((i + 1) % |messages|, false, [])
    decreases j
  {
    var m := messages[i];
    var next := Step(messages, Cursor(i, true, m[..j])).0;
    if j == 1 {
      assert next == Cursor((i + 1) % |messages|, false, []);
    } else {
      assert next == Cursor(i, true, m[..j - 1]);
      DeletingPhase(messages, i, j - 1);
    }
  }

  lemma {:induction false} StepsAdd(messages: seq<string>, c: Cursor, a: nat, b: nat)
    requires c.index < |messages|
    ensures Steps(messages, c, a).index < |messages|
    ensures Steps(messages, c, a + b) == Steps(messages, Steps(messages, c, a), b)
    decreases a
  {
    if a > 0 {
      StepEffect(messages, c);
      StepsAdd(messages, Step(messages, c).0, a - 1, b);
    }
  }

  /** A whole cycle: starting to type a non-empty message, the typewriter is
      back at the empty text, typing the next message, after twice the
      message's length in steps. */
  lemma MessageCycle(messages: seq<string>, i: nat)
    requires i < |messages| && messages[i] != []
    ensures Steps(messages, Cursor(i, false, []), 2 * |messages[i]|) ==
            Cursor((i + 1) % |messages|, false, [])
  {
    var m := messages[i];
    assert m[..0] == [];
    TypingPhase(messages, i, 0);
    StepsAdd(messages, Cursor(i, false, []), |m|, |m|);
    assert m[..|m|] == m;
    DeletingPhase(messages, i, |m|);
  }

  /** The typewriter's closure state. */
  class ContactTypewriter {
    const messages: seq<string>
    var currentMessageIndex: nat
    var isDeleting: bool
    var currentText: string

    ghost predicate Valid()
      reads this
    {
      Shows(messages, Cursor(currentMessageIndex, isDeleting, currentText))
    }

    function Current(): Cursor
      reads this
    {
      Cursor(currentMessageIndex, isDeleting, currentText)
    }

    constructor ()
      ensures Valid() && messages == ContactMessages
      ensures Current() == Cursor(0, false, [])
    {
      messages := ContactMessages;
      currentMessageIndex := 0;
      isDeleting := false;
      currentText := [];
    }

    /** One step of the effect; the result is the pause before the next. */
    method TypeEffect() returns (typeSpeed: nat)
      requires Valid()
      modifies this
      ensures Valid()
      ensures (Current(), typeSpeed) == Step(messages, old(Current()))
    {
      var fullMessage := messages[currentMessageIndex];
      if isDeleting {
        currentText := Prefix(fullMessage, |currentText| - 1);
        typeSpeed := DeleteDelay;
      } else {
        currentText := Prefix(fullMessage, |currentText| + 1);
        typeSpeed := TypeDelay;
      }
      if !isDeleting && currentText == fullMessage {
        typeSpeed := FullPause;
        isDeleting := true;
      } else if isDeleting && currentText == [] {
        isDeleting := false;
        currentMessageIndex := (currentMessageIndex + 1) % |messages|;
        typeSpeed := EmptyPause;
      }
      StepEffect(messages, old(Current()));
    }
  }
}
