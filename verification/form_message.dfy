/** The single message slot above the contact form (`showFormMessage`): the
    page's nodes around the form, of which at most one is the message box. */
module FormMessage {
  import opened Seqs

  /** The type of a message box: its class is `form-message error` or
      `form-message success`, so it always keeps the `form-message` class. */
  datatype MessageType = Error | Success

  /** A node next to the form: the message box (`.form-message`), the contact
      form itself, or any other element, told apart by an identifier. */
  datatype Node = MessageBox(text: string, kind: MessageType) | ContactForm | Other(id: nat)

  type Page = seq<Node>

  function MessageCount(p: Page): nat
  {
    if |p| == 0 then 0 else (if p[0].MessageBox? then 1 else 0) + MessageCount(p[1..])
  }

  /** The page with every message box left out. */
  function WithoutMessages(p: Page): Page
  {
    if |p| == 0 then []
    else (if p[0].MessageBox? then [] else [p[0]]) + WithoutMessages(p[1..])
  }

  /** Position of the first message box, the one `querySelector('.form-message')` finds. */
  function FirstMessage(p: Page): (i: nat)
    ensures i <= |p|
    ensures i < |p| ==> p[i].MessageBox?
    ensures forall k :: 0 <= k < i ==> !p[k].MessageBox?
  {
    if |p| == 0 then 0 else if p[0].MessageBox? then 0 else 1 + FirstMessage(p[1..])
  }

  lemma {:induction false} MessageCountConcat(a: Page, b: Page)
    ensures MessageCount(a + b) == MessageCount(a) + MessageCount(b)
    ensures WithoutMessages(a + b) == WithoutMessages(a) + WithoutMessages(b)
  {
    if |a| == 0 {
      assert a + b == b;
    } else {
      assert (a + b)[1..] == a[1..] + b;
      MessageCountConcat(a[1..], b);
    }
  }

  lemma {:induction false} NoMessageBefore(p: Page, i: nat)
    requires i <= |p|
    requires forall k :: 0 <= k < i ==> !p[k].MessageBox?
    ensures MessageCount(p[..i]) == 0
    ensures WithoutMessages(p[..i]) == p[..i]
  {
    if i > 0 {
      assert p[..i][1..] == p[1..][..i - 1];
      NoMessageBefore(p[1..], i - 1);
    }
  }

  /** The page around `x`, counted piece by piece. */
  lemma Splice(a: Page, x: Node, b: Page)
    ensures MessageCount(a + [x] + b) == MessageCount(a) + (if x.MessageBox? then 1 else 0) + MessageCount(b)
    ensures WithoutMessages(a + [x] + b)
            == WithoutMessages(a) + (if x.MessageBox? then [] else [x]) + WithoutMessages(b)
  {
    MessageCountConcat(a + [x], b);
    MessageCountConcat(a, [x]);
    assert [x][1..] == [];
  }

  /** Dropping one message box from a page removes one from the count and
      nothing else. */
  lemma DropMessage(a: Page, x: Node, b: Page)
    requires x.MessageBox?
    ensures MessageCount(a + b) + 1 == MessageCount(a + [x] + b)
    ensures WithoutMessages(a + b) == WithoutMessages(a + [x] + b)
  {
    Splice(a, x, b);
    MessageCountConcat(a, b);
  }

  /** The first message box is the only one with no message box before it. */
  lemma FirstMessageAt(p: Page, i: nat)
    requires i <= |p|
    requires i < |p| ==> p[i].MessageBox?
    requires forall k :: 0 <= k < i ==> !p[k].MessageBox?
    ensures FirstMessage(p) == i
  {
    var j := FirstMessage(p);
  }

  /** The nodes before the message slot: before the existing message box, or
      before the contact form when there is none. */
  function SlotBefore(p: Page): (a: Page)
    requires ContactForm in p
    ensures forall k :: 0 <= k < |a| ==> !a[k].MessageBox?
  {
    var i := FirstMessage(p);
    if i < |p| then p[..i] else p[..IndexOf(p, ContactForm)]
  }

  /** The nodes after the message slot. */
  function SlotAfter(p: Page): (b: Page)
    requires ContactForm in p
  {
    var i := FirstMessage(p);
    if i < |p| then p[i + 1..] else p[IndexOf(p, ContactForm)..]
  }

  /** With a message box on the page, the slot is that box. */
  lemma SlotOfMessage(p: Page)
    requires ContactForm in p
    requires FirstMessage(p) < |p|
    ensures p == SlotBefore(p) + [p[FirstMessage(p)]] + SlotAfter(p)
  {
    SplitAround(p, FirstMessage(p));
  }

  /** Without one, the slot sits just before the contact form. */
  lemma SlotBeforeForm(p: Page)
    requires ContactForm in p
    requires FirstMessage(p) == |p|
    ensures p == SlotBefore(p) + SlotAfter(p)
  {
    var f := IndexOf(p, ContactForm);
    SplitAt(p, f);
  }

  /** The form stays next to its slot. */
  lemma FormBesideSlot(p: Page)
    requires ContactForm in p
    ensures ContactForm in SlotBefore(p) + SlotAfter(p)
  {
    if FirstMessage(p) < |p| {
      SlotOfMessage(p);
      DropKeeps(SlotBefore(p), p[FirstMessage(p)], SlotAfter(p), ContactForm);
    } else {
      SlotBeforeForm(p);
    }
  }

  /** `showFormMessage(msg, type)`: reuse the first message box if there is
      one, otherwise create one just before the contact form; then set its
      text and its type. The form is on the page whenever this runs, since
      only the form's submit handler calls it. */
  function ShowFormMessage(p: Page, text: string, kind: MessageType): Page
    requires ContactForm in p
  {
    SlotBefore(p) + [MessageBox(text, kind)] + SlotAfter(p)
  }

  /** Showing a message never takes the form off the page. */
  lemma ShowKeepsForm(p: Page, text: string, kind: MessageType)
    requires ContactForm in p
    ensures ContactForm in ShowFormMessage(p, text, kind)
  {
    FormBesideSlot(p);
    InsertKeeps(SlotBefore(p), MessageBox(text, kind), SlotAfter(p), ContactForm);
  }

  /** The removal step scheduled after a successful submission: drop the
      message box `querySelector` finds, if any. */
  function RemoveFormMessage(p: Page): (r: Page)
  {
    var i := FirstMessage(p);
    if i < |p| then p[..i] + p[i + 1..] else p
  }

  /** The message just shown is the one `querySelector` finds next. */
  lemma ShownIsFirst(p: Page, text: string, kind: MessageType)
    requires ContactForm in p
    ensures FirstMessage(ShowFormMessage(p, text, kind)) == |SlotBefore(p)|
  {
    var a, b := SlotBefore(p), SlotAfter(p);
    var r := a + [MessageBox(text, kind)] + b;
    assert forall k :: 0 <= k < |a| ==> r[k] == a[k];
    FirstMessageAt(r, |a|);
  }

  /** Showing a message on a page with at most one message box leaves exactly
      one, holding the new text and type, and changes nothing else. */
  lemma ShowLeavesOneMessage(p: Page, text: string, kind: MessageType)
    requires ContactForm in p
    requires MessageCount(p) <= 1
    ensures var r := ShowFormMessage(p, text, kind);
            && MessageCount(r) == 1
            && FirstMessage(r) < |r| && r[FirstMessage(r)] == MessageBox(text, kind)
            && WithoutMessages(r) == WithoutMessages(p)
  {
    var a, b := SlotBefore(p), SlotAfter(p);
    var m := MessageBox(text, kind);
    NoMessages(a);
    Splice(a, m, b);
    ShownIsFirst(p, text, kind);
    var i := FirstMessage(p);
    if i < |p| {
      SlotOfMessage(p);
      Splice(a, p[i], b);
    } else {
      SlotBeforeForm(p);
      NoMessages(p);
      DropMessage(a, m, b);
    }
  }

  lemma NoMessages(s: Page)
    requires forall k :: 0 <= k < |s| ==> !s[k].MessageBox?
    ensures MessageCount(s) == 0 && WithoutMessages(s) == s
  {
    NoMessageBefore(s, |s|);
    assert s[..|s|] == s;
  }

  /** Showing a second message leaves the page as if only the second had been
      shown: the first text and type are gone. */
  lemma ShowTwice(p: Page, t1: string, k1: MessageType, t2: string, k2: MessageType)
    requires ContactForm in p
    ensures ShowFormMessage(ShowFormMessage(p, t1, k1), t2, k2) == ShowFormMessage(p, t2, k2)
  {
    var a, b := SlotBefore(p), SlotAfter(p);
    var q := ShowFormMessage(p, t1, k1);
    ShownIsFirst(p, t1, k1);
    assert q[..|a|] == a;
    assert q[|a| + 1..] == b;
  }

  /** The removal step empties the slot of a page with at most one message
      box and touches nothing else. */
  lemma RemoveEmptiesSlot(p: Page)
    requires MessageCount(p) <= 1
    ensures MessageCount(RemoveFormMessage(p)) == 0
    ensures WithoutMessages(RemoveFormMessage(p)) == WithoutMessages(p)
  {
    var i := FirstMessage(p);
    if i < |p| {
      SplitAround(p, i);
      DropMessage(p[..i], p[i], p[i + 1..]);
    } else {
      NoMessages(p);
    }
  }
}
