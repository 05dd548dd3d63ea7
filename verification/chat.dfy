/** The in-game chat window of the mod's own chat service: each incoming
    message adds a name header when it starts a new group and one line per
    wrapped line of text, the lines and messages are kept ordered by time,
    and scrolling above the top asks the server for older history. */
module Chat {
  import opened Base
  import opened Sorting

  /** The message header's gap: a same-sender message starts a new group
      when the previous one is more than this many seconds LATER than it. */
  const GroupGap := 150

  /** A chat message: sender, sender's display name, time in epoch seconds,
      and its text. */
  datatype Message = Message(sender: string, senderDisplayName: string, timestamp: int, content: string)

  /** A row of the chat list: a name header or one wrapped line of a message. */
  datatype Line = NameLine(origin: Message) | TextLine(text: string, origin: Message)

  /** The window: its rows, the messages seen, and the scroll amount. */
  datatype Widget = Widget(entries: seq<Line>, messages: seq<Message>, amount: real)

  function LineTime(l: Line): int { l.origin.timestamp }
  function MessageTime(m: Message): int { m.timestamp }

  function Empty(): Widget {
    Widget([], [], 0.0)
  }

  /** The window's invariant: rows and messages ordered by time. */
  ghost predicate Ordered(w: Widget) {
    SortedBy(w.entries, LineTime) && SortedBy(w.messages, MessageTime)
  }

  /** Whether a message gets a name header: always for the first message; for
      a different sender or display name than the last message stored; for
      the same one only when the last message is more than the gap later. */
  predicate NeedsHeader(messages: seq<Message>, m: Message) {
    |messages| == 0
    || var prev := messages[|messages| - 1];
       !(prev.sender == m.sender && prev.senderDisplayName == m.senderDisplayName)
       || prev.timestamp - m.timestamp > GroupGap
  }

  /** One text row per wrapped line of the message, in order. */
  function TextLines(wrapped: seq<string>, m: Message): (r: seq<Line>)
    ensures |r| == |wrapped|
    ensures forall i :: 0 <= i < |r| ==> r[i] == TextLine(wrapped[i], m)
  {
    seq(|wrapped|, i requires 0 <= i < |wrapped| => TextLine(wrapped[i], m))
  }

  /** The rows one message contributes, before sorting. */
  function NewRows(messages: seq<Message>, m: Message, wrapped: seq<string>): seq<Line> {
    (if NeedsHeader(messages, m) then [NameLine(m)] else []) + TextLines(wrapped, m)
  }

  /** `capScrolling`: the amount is kept within [0, max]. */
  function Cap(v: real, max: nat): (r: real)
    ensures 0.0 <= r <= max as real
    ensures 0.0 <= v <= max as real ==> r == v
  {
    ClampReal(v, 0.0, max as real)
  }

  /** `loadMessages`: history is asked for before the first stored message,
      or before now when there is none. */
  function HistoryBefore(messages: seq<Message>, now: int): (b: int)
    ensures |messages| == 0 ==> b == now
    ensures |messages| > 0 ==> b == messages[0].timestamp
    ensures SortedBy(messages, MessageTime) ==> forall i :: 0 <= i < |messages| ==> b <= messages[i].timestamp
  {
    if |messages| == 0 then now else messages[0].timestamp
  }

  /** `scroll`: move by `i`; going above the top asks for older history (the
      time it is asked before), then the amount is capped. */
  function Scroll(w: Widget, i: int, max: nat, now: int): (r: (Widget, Option<int>))
    ensures 0.0 <= r.0.amount <= max as real
    ensures r.0.(amount := w.amount) == w
    ensures r.1.Some? <==> w.amount + i as real < 0.0
    ensures r.1.Some? ==> r.1.value == HistoryBefore(w.messages, now)
    ensures 0.0 <= w.amount + i as real <= max as real ==> r.0.amount == w.amount + i as real
  {
    var v := w.amount + i as real;
    (w.(amount := Cap(v, max)), if v < 0.0 then Some(HistoryBefore(w.messages, now)) else None)
  }

  /** `addMessage`: the message's header (when it needs one) and its wrapped
      lines join the rows, the message joins the messages, both are sorted
      by time, and a window scrolled to the bottom (`maxBefore`) stays at the
      bottom (`maxAfter`). The wrapping itself is the font's and is given. */
  function AddMessage(w: Widget, m: Message, wrapped: seq<string>, maxBefore: nat, maxAfter: nat): (r: Widget)
    ensures Ordered(r)
    ensures multiset(r.entries) == multiset(w.entries) + multiset(NewRows(w.messages, m, wrapped))
    ensures multiset(r.messages) == multiset(w.messages) + multiset{m}
    ensures w.amount == maxBefore as real ==> r.amount == maxAfter as real
    ensures w.amount != maxBefore as real ==> r.amount == w.amount
  {
    var entries := SortBy(w.entries + NewRows(w.messages, m, wrapped), LineTime);
    var messages := SortBy(w.messages + [m], MessageTime);
    SortIsOrderedPermutation(w.entries + NewRows(w.messages, m, wrapped), LineTime);
    SortIsOrderedPermutation(w.messages + [m], MessageTime);
    var amount := if w.amount == maxBefore as real then Cap(w.amount + maxAfter as real, maxAfter) else w.amount;
    Widget(entries, messages, amount)
  }

  /** Exactly one header is added for a message that needs one, none
      otherwise, and one text row per wrapped line. */
  lemma HeaderCount(w: Widget, m: Message, wrapped: seq<string>, maxBefore: nat, maxAfter: nat)
    ensures var r := AddMessage(w, m, wrapped, maxBefore, maxAfter);
      multiset(r.entries)[NameLine(m)] == multiset(w.entries)[NameLine(m)] + (if NeedsHeader(w.messages, m) then 1 else 0)
    ensures |AddMessage(w, m, wrapped, maxBefore, maxAfter).entries|
      == |w.entries| + |wrapped| + (if NeedsHeader(w.messages, m) then 1 else 0)
  {
    var t := TextLines(wrapped, m);
    assert NameLine(m) !in t;
    assert multiset(t)[NameLine(m)] == 0;
    var r := AddMessage(w, m, wrapped, maxBefore, maxAfter);
    assert |r.entries| == |multiset(r.entries)|;
  }

  /** The first message, and a message from someone else than the last one,
      always start with a header. */
  lemma NewSenderGetsHeader(w: Widget, m: Message, wrapped: seq<string>, maxBefore: nat, maxAfter: nat)
    requires |w.messages| == 0 || w.messages[|w.messages| - 1].sender != m.sender
    ensures NameLine(m) in AddMessage(w, m, wrapped, maxBefore, maxAfter).entries
  {
    var r := AddMessage(w, m, wrapped, maxBefore, maxAfter);
    assert NameLine(m) in multiset(NewRows(w.messages, m, wrapped));
    assert NameLine(m) in multiset(r.entries);
  }

  /** As written, a message from the same sender that is no more than the gap
      EARLIER than the last one gets no header; in particular a later one
      never does, however long after it comes. */
  lemma SameSenderLaterNoHeader(w: Widget, m: Message)
    requires |w.messages| > 0
    requires w.messages[|w.messages| - 1].sender == m.sender
    requires w.messages[|w.messages| - 1].senderDisplayName == m.senderDisplayName
    requires m.timestamp >= w.messages[|w.messages| - 1].timestamp - GroupGap
    ensures !NeedsHeader(w.messages, m)
  {
  }

  /** Adding keeps each timestamp's rows in the order they were added: the
      older rows first, then the new header, then the new lines. */
  lemma AddIsStable(w: Widget, m: Message, wrapped: seq<string>, maxBefore: nat, maxAfter: nat, k: int)
    ensures Filter(AddMessage(w, m, wrapped, maxBefore, maxAfter).entries, LineTime, k)
         == Filter(w.entries + NewRows(w.messages, m, wrapped), LineTime, k)
  {
    SortIsStable(w.entries + NewRows(w.messages, m, wrapped), LineTime, k);
  }

  /** Adding a message to an ordered window at or after everything in it
      appends its rows and the message at the end, unmoved. */
  lemma {:induction false} LatestAppends(w: Widget, m: Message, wrapped: seq<string>, maxBefore: nat, maxAfter: nat)
    requires Ordered(w)
    requires forall i :: 0 <= i < |w.messages| ==> w.messages[i].timestamp <= m.timestamp
    requires forall i :: 0 <= i < |w.entries| ==> w.entries[i].origin.timestamp <= m.timestamp
    ensures AddMessage(w, m, wrapped, maxBefore, maxAfter).entries == w.entries + NewRows(w.messages, m, wrapped)
    ensures AddMessage(w, m, wrapped, maxBefore, maxAfter).messages == w.messages + [m]
  {
    var e := w.entries + NewRows(w.messages, m, wrapped);
    var n := NewRows(w.messages, m, wrapped);
    assert forall i :: 0 <= i < |n| ==> n[i].origin == m;
    forall i, j | 0 <= i < j < |e|
      ensures LineTime(e[i]) <= LineTime(e[j])
    {
      if j >= |w.entries| {
        assert e[j] == n[j - |w.entries|];
        if i >= |w.entries| {
          assert e[i] == n[i - |w.entries|];
        }
      }
    }
    SortOfSorted(e, LineTime);
    var ms := w.messages + [m];
    forall i, j | 0 <= i < j < |ms|
      ensures MessageTime(ms[i]) <= MessageTime(ms[j])
    {
    }
    SortOfSorted(ms, MessageTime);
  }

  /** Scrolling above the top of a window at the top asks for the history
      before its earliest message, and stays at the top. */
  lemma ScrollAboveTopLoadsHistory(w: Widget, i: int, max: nat, now: int)
    requires Ordered(w) && |w.messages| > 0 && w.amount == 0.0 && i < 0
    ensures Scroll(w, i, max, now).1 == Some(w.messages[0].timestamp)
    ensures Scroll(w, i, max, now).0 == w
    ensures forall j :: 0 <= j < |w.messages| ==> Scroll(w, i, max, now).1.value <= w.messages[j].timestamp
  {
  }
}
