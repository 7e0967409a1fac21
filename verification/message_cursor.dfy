/** The backup log stream of the run page: each tick reads the stored log
    messages and a stored cursor, sends the messages whose key exceeds the
    cursor (raising the cursor as it goes), and stores the new cursor. */
module MessageCursor {
  import opened Wrappers

  datatype Message = Message(key: int, text: string)

  datatype TickReply =
    | Final                              // {final: true}
    | NewMessages(msgs: seq<Message>)    // the selected messages, keyed
    | NoNewMessages                      // false

  /** The reply and the cursor stored afterwards (`None` while unset). */
  datatype TickOutcome = TickOutcome(reply: TickReply, stored: Option<int>)

  /** `!empty($last) ? $last : 0`. */
  function Cursor(stored: Option<int>): int
  {
    stored.GetOr(0)
  }

  /** `$last == key(array_slice($msgs, -1, 1, true))`: with no messages the
      key is null, which equals only a zero cursor. */
  predicate AtEnd(msgs: seq<Message>, last: int)
  {
    if |msgs| == 0 then last == 0 else last == msgs[|msgs| - 1].key
  }

  /** The cursor after scanning `msgs` from cursor `c`: the largest of `c` and the keys. */
  function RunningMax(msgs: seq<Message>, c: int): int
    decreases |msgs|
  {
    if |msgs| == 0 then c
    else
      var m := RunningMax(msgs[..|msgs| - 1], c);
      var k := msgs[|msgs| - 1].key;
      if k > m then k else m
  }

  /** The messages selected from cursor `c`: each one whose key exceeds the
      cursor as it stands when the message is reached. */
  function Selected(msgs: seq<Message>, c: int): seq<Message>
    decreases |msgs|
  {
    if |msgs| == 0 then []
    else
      var prefix := msgs[..|msgs| - 1];
      var m := msgs[|msgs| - 1];
      Selected(prefix, c) + (if m.key > RunningMax(prefix, c) then [m] else [])
  }

  /** The selection loop of one tick. */
  method SelectNew(msgs: seq<Message>, last: int) returns (selected: seq<Message>, cursor: int)
    ensures selected == Selected(msgs, last)
    ensures cursor == RunningMax(msgs, last)
  {
    selected, cursor := [], last;
    var i := 0;
    while i < |msgs|
      invariant 0 <= i <= |msgs|
      invariant selected == Selected(msgs[..i], last)
      invariant cursor == RunningMax(msgs[..i], last)
    {
      assert msgs[..i + 1][..i] == msgs[..i];
      if msgs[i].key > cursor {
        selected := selected + [msgs[i]];
        cursor := msgs[i].key;
      }
      i := i + 1;
    }
    assert msgs[..i] == msgs;
  }

  /** One tick of the update callback. */
  method Tick(msgs: seq<Message>, stored: Option<int>) returns (o: TickOutcome)
    ensures o.reply == Final <==> AtEnd(msgs, Cursor(stored))
    ensures o.reply == Final ==> o.stored == stored
    ensures o.reply != Final ==> o.stored == Some(RunningMax(msgs, Cursor(stored)))
    ensures o.reply.NewMessages? ==> o.reply.msgs == Selected(msgs, Cursor(stored)) && o.reply.msgs != []
    ensures o.reply == NoNewMessages ==> Selected(msgs, Cursor(stored)) == []
  {
    var last := Cursor(stored);
    if AtEnd(msgs, last) {
      return TickOutcome(Final, stored);
    }
    var selected, cursor := SelectNew(msgs, last);
    if selected != [] {
      return TickOutcome(NewMessages(selected), Some(cursor));
    }
    return TickOutcome(NoNewMessages, Some(cursor));
  }

  // ---------------------------------------------------------------------
  // Properties of a tick

  /** The cursor is below `k` exactly when the start cursor and every key are. */
  lemma {:induction false} RunningMaxBelow(msgs: seq<Message>, c: int, k: int)
    ensures RunningMax(msgs, c) < k <==> c < k && forall j :: 0 <= j < |msgs| ==> msgs[j].key < k
    decreases |msgs|
  {
    if |msgs| > 0 {
      var prefix := msgs[..|msgs| - 1];
      RunningMaxBelow(prefix, c, k);
      assert forall j :: 0 <= j < |prefix| ==> prefix[j] == msgs[j];
    }
  }

  /** A message is selected exactly when its key exceeds the start cursor
      and the key of every message before it. */
  lemma SelectedWhenAboveAllEarlier(msgs: seq<Message>, c: int, i: nat)
    requires i < |msgs|
    ensures msgs[i].key > RunningMax(msgs[..i], c) <==>
              msgs[i].key > c && forall j :: 0 <= j < i ==> msgs[j].key < msgs[i].key
  {
    RunningMaxBelow(msgs[..i], c, msgs[i].key);
  }

  /** Selected keys all exceed the start cursor and strictly increase; the
      cursor never goes back, and it ends on the last selected key, or stays
      put when nothing is selected. */
  lemma {:induction false} SelectionIncreases(msgs: seq<Message>, c: int)
    ensures var s := Selected(msgs, c);
            && (forall i :: 0 <= i < |s| ==> s[i].key > c)
            && (forall i, j :: 0 <= i < j < |s| ==> s[i].key < s[j].key)
            && RunningMax(msgs, c) >= c
            && (s != [] ==> RunningMax(msgs, c) == s[|s| - 1].key)
            && (s == [] ==> RunningMax(msgs, c) == c)
    decreases |msgs|
  {
    if |msgs| > 0 {
      var prefix, m := msgs[..|msgs| - 1], msgs[|msgs| - 1];
      SelectionIncreases(prefix, c);
      var before, top := Selected(prefix, c), RunningMax(prefix, c);
      if m.key > top {
        SelectionSnoc(before, m, c, top);
      }
    }
  }

  /** Appending a message above the cursor keeps the selection increasing. */
  lemma SelectionSnoc(before: seq<Message>, m: Message, c: int, top: int)
    requires forall i :: 0 <= i < |before| ==> before[i].key > c
    requires forall i, j :: 0 <= i < j < |before| ==> before[i].key < before[j].key
    requires top >= c && (before != [] ==> top == before[|before| - 1].key)
    requires m.key > top
    ensures var s := before + [m];
            && (forall i :: 0 <= i < |s| ==> s[i].key > c)
            && (forall i, j :: 0 <= i < j < |s| ==> s[i].key < s[j].key)
  {
    var s := before + [m];
    forall i | 0 <= i < |before|
      ensures before[i].key <= top
    {
      if i < |before| - 1 {
        assert before[i].key < before[|before| - 1].key;
      }
    }
    forall i, j | 0 <= i < j < |s|
      ensures s[i].key < s[j].key
    {
      if j == |before| {
        assert s[i] == before[i];
      }
    }
  }

  /** Every key is at most the cursor a tick stores, so a second tick over
      the same messages selects nothing. */
  lemma {:induction false} SecondTickSelectsNothing(msgs: seq<Message>, c: int)
    ensures forall j :: 0 <= j < |msgs| ==> msgs[j].key <= RunningMax(msgs, c)
    ensures Selected(msgs, RunningMax(msgs, c)) == []
  {
    var top := RunningMax(msgs, c);
    RunningMaxBelow(msgs, c, top + 1);
    NothingAbove(msgs, top);
  }

  lemma {:induction false} NothingAbove(msgs: seq<Message>, top: int)
    requires forall j :: 0 <= j < |msgs| ==> msgs[j].key <= top
    ensures RunningMax(msgs, top) == top
    ensures Selected(msgs, top) == []
    decreases |msgs|
  {
    if |msgs| > 0 {
      var prefix := msgs[..|msgs| - 1];
      assert forall j :: 0 <= j < |prefix| ==> prefix[j] == msgs[j];
      NothingAbove(prefix, top);
    }
  }
}
