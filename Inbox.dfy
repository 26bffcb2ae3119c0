/** What the inbox list is built from: the per-sender tally of unseen
    messages (app.js:1098-1103, kept in the module-level `unreadCountByPeer`)
    and the latest message exchanged with each peer, merged from the rows I
    sent and then the rows I received (app.js:1069-1087). */
module Inbox {
  import opened Optional
  import opened MessageViews
  import opened JsText

  /** The number of unseen rows per sender: each row adds one to its
      sender's count. */
  function TallyOf(senders: seq<string>): map<string, nat> {
    if senders == [] then map[]
    else
      var t := TallyOf(senders[..|senders| - 1]);
      var s := senders[|senders| - 1];
      t[s := CountIn(t, s) + 1]
  }

  /** `map.get(k) || 0`. */
  function CountIn(counts: map<string, nat>, k: string): nat {
    if k in counts then counts[k] else 0
  }

  /** Exactly the senders that occur get an entry, and each one's count is
      the number of rows it sent. */
  lemma {:induction false} TallyCounts(senders: seq<string>)
    ensures forall k :: k in TallyOf(senders) <==> k in senders
    ensures forall k :: CountIn(TallyOf(senders), k) == multiset(senders)[k]
  {
    if senders != [] {
      var init := senders[..|senders| - 1];
      TallyCounts(init);
      assert senders == init + [senders[|senders| - 1]];
    }
  }

  /** The sum of the counts in a tally. */
  ghost function SumValues(m: map<string, nat>): nat
    decreases |m.Keys|
  {
    if m == map[] then 0
    else
      var k :| k in m;
      m[k] + SumValues(m - {k})
  }

  /** Any key can be taken out of the sum first. */
  lemma SumRemove(m: map<string, nat>, k: string)
    requires k in m
    decreases |m.Keys|
    ensures SumValues(m) == m[k] + SumValues(m - {k})
  {
    var j :| j in m && SumValues(m) == m[j] + SumValues(m - {j});
    if j != k {
      assert (m - {j}).Keys == m.Keys - {j};
      assert (m - {k}).Keys == m.Keys - {k};
      SumRemove(m - {j}, k);
      SumRemove(m - {k}, j);
      assert (m - {j}) - {k} == (m - {k}) - {j};
    }
  }

  /** Adding one to a key's count adds one to the sum. */
  lemma SumIncrement(m: map<string, nat>, k: string)
    ensures SumValues(m[k := CountIn(m, k) + 1]) == SumValues(m) + 1
  {
    var m' := m[k := CountIn(m, k) + 1];
    SumRemove(m', k);
    assert m' - {k} == m - {k};
    if k in m {
      SumRemove(m, k);
    } else {
      assert m - {k} == m;
    }
  }

  /** The counts add up to the number of rows: every unseen row is counted
      once. */
  lemma {:induction false} TallySum(senders: seq<string>)
    ensures SumValues(TallyOf(senders)) == |senders|
  {
    if senders != [] {
      TallySum(senders[..|senders| - 1]);
      SumIncrement(TallyOf(senders[..|senders| - 1]), senders[|senders| - 1]);
    }
  }

  /** After the tally is rebuilt, a peer's badge is hidden exactly when none
      of the unseen rows is from that peer, and otherwise shows that count. */
  lemma BadgeAfterRebuild(senders: seq<string>, peer: string)
    ensures UnreadBadge(CountIn(TallyOf(senders), peer)) == Hidden <==> peer !in senders
    ensures UnreadBadge(CountIn(TallyOf(senders), peer)) == UnreadBadge(multiset(senders)[peer])
  {
    TallyCounts(senders);
  }

  /** `unreadCountByPeer`: the unread count per peer id. */
  class UnreadTally {
    var counts: map<string, nat>

    constructor()
      ensures counts == map[]
    {
      counts := map[];
    }

    /** The count shown for a peer. */
    function CountFor(peer: string): nat
      reads this
    {
      CountIn(counts, peer)
    }

    /** The initial tally from the unseen rows' senders: the map is cleared,
        then each row adds one to its sender. */
    method Rebuild(senders: seq<string>)
      modifies this
      ensures counts == TallyOf(senders)
    {
      counts := map[];
      var i := 0;
      while i < |senders|
        invariant 0 <= i <= |senders|
        invariant counts == TallyOf(senders[..i])
      {
        assert senders[..i + 1][..i] == senders[..i];
        var s := senders[i];
        var n := if s in counts then counts[s] else 0;
        counts := counts[s := n + 1];
        i := i + 1;
      }
      assert senders[..i] == senders;
    }

    /** `setUnreadBadge(peerId, count)`: one peer's count is replaced (by the
        server's count, or 0 when the conversation is opened); the others
        stay. */
    method SetCount(peer: string, count: nat)
      modifies this
      ensures counts == old(counts)[peer := count]
      ensures CountFor(peer) == count
      ensures forall p :: p != peer ==> CountFor(p) == old(CountFor(p))
    {
      counts := counts[peer := count];
    }
  }

  /** A merged entry: the row and which batch it came from. */
  datatype Last = Last(row: Message, incoming: bool)

  /** The peer a row belongs to: the receiver of a row I sent, the sender of
      a row I received. */
  function PeerOf(m: Message, incoming: bool): string {
    if incoming then m.senderId else m.receiverId
  }

  /** One step of `combine`: the row replaces its peer's entry only when
      there is none or the row is strictly newer. */
  function Offer(acc: map<string, Last>, m: Message, incoming: bool): map<string, Last> {
    var p := PeerOf(m, incoming);
    if p !in acc || m.createdAt > acc[p].row.createdAt then acc[p := Last(m, incoming)] else acc
  }

  /** `combine(rows, incoming)` applied to the map built so far. */
  function CombineAll(acc: map<string, Last>, rows: seq<Message>, incoming: bool): map<string, Last> {
    if rows == [] then acc
    else Offer(CombineAll(acc, rows[..|rows| - 1], incoming), rows[|rows| - 1], incoming)
  }

  /** The map `loadUsers` ends with: my sent rows first, then my received
      rows. */
  function Latest(outRows: seq<Message>, inRows: seq<Message>): map<string, Last> {
    CombineAll(CombineAll(map[], outRows, false), inRows, true)
  }

  /** The loop of `combine`, row by row over one batch. */
  method Combine(acc: map<string, Last>, rows: seq<Message>, incoming: bool) returns (r: map<string, Last>)
    ensures r == CombineAll(acc, rows, incoming)
  {
    r := acc;
    var i := 0;
    while i < |rows|
      invariant 0 <= i <= |rows|
      invariant r == CombineAll(acc, rows[..i], incoming)
    {
      assert rows[..i + 1][..i] == rows[..i];
      var m := rows[i];
      var peer := if incoming then m.senderId else m.receiverId;
      if peer !in r || m.createdAt > r[peer].row.createdAt {
        r := r[peer := Last(m, incoming)];
      }
      i := i + 1;
    }
    assert rows[..i] == rows;
  }

  /** `lastByPeer`: both batches combined, sent rows first. */
  method LatestByPeer(outRows: seq<Message>, inRows: seq<Message>) returns (last: map<string, Last>)
    ensures last == Latest(outRows, inRows)
  {
    last := Combine(map[], outRows, false);
    last := Combine(last, inRows, true);
  }

  /** A peer has an entry after combining exactly when it had one before or
      one of the rows is with that peer. */
  lemma {:induction false} CombineKeys(acc: map<string, Last>, rows: seq<Message>, incoming: bool)
    ensures forall k :: k in CombineAll(acc, rows, incoming) <==>
      k in acc || exists i :: 0 <= i < |rows| && PeerOf(rows[i], incoming) == k
  {
    if rows != [] {
      var init := rows[..|rows| - 1];
      CombineKeys(acc, init, incoming);
      assert forall i :: 0 <= i < |init| ==> init[i] == rows[i];
    }
  }

  /** Every row's peer ends with an entry at least as new as the row. */
  lemma {:induction false} CombineMax(acc: map<string, Last>, rows: seq<Message>, incoming: bool)
    ensures var c := CombineAll(acc, rows, incoming);
      forall i :: 0 <= i < |rows| ==>
        PeerOf(rows[i], incoming) in c && rows[i].createdAt <= c[PeerOf(rows[i], incoming)].row.createdAt
  {
    if rows != [] {
      var init := rows[..|rows| - 1];
      CombineMax(acc, init, incoming);
      assert forall i :: 0 <= i < |init| ==> init[i] == rows[i];
    }
  }

  /** An earlier entry is kept unless a strictly newer row replaced it. */
  lemma {:induction false} CombineKeeps(acc: map<string, Last>, rows: seq<Message>, incoming: bool)
    ensures var c := CombineAll(acc, rows, incoming);
      forall k :: k in acc ==> k in c && (c[k] == acc[k] || c[k].row.createdAt > acc[k].row.createdAt)
  {
    if rows != [] {
      CombineKeeps(acc, rows[..|rows| - 1], incoming);
    }
  }

  /** Every entry is either the one it had before or one of the rows with
      that peer, tagged with this batch's flag. */
  lemma {:induction false} CombineOrigin(acc: map<string, Last>, rows: seq<Message>, incoming: bool)
    ensures var c := CombineAll(acc, rows, incoming);
      forall k :: k in c ==>
        (k in acc && c[k] == acc[k]) ||
        exists i :: 0 <= i < |rows| && PeerOf(rows[i], incoming) == k && c[k] == Last(rows[i], incoming)
  {
    if rows != [] {
      var init := rows[..|rows| - 1];
      CombineOrigin(acc, init, incoming);
      assert forall i :: 0 <= i < |init| ==> init[i] == rows[i];
    }
  }

  /** The rows of one batch that belong to `peer`. */
  predicate WithPeer(rows: seq<Message>, incoming: bool, peer: string) {
    exists i :: 0 <= i < |rows| && PeerOf(rows[i], incoming) == peer
  }

  /** What `lastByPeer` holds for a peer: an entry exactly when some row is
      with that peer; the entry is one of that peer's rows, flagged with
      the batch it came from; nothing with that peer is newer; and a
      received row wins only when it is strictly newer than every row I
      sent to that peer, so a tie goes to my own message. */
  lemma LatestFacts(outRows: seq<Message>, inRows: seq<Message>, peer: string)
    ensures var l := Latest(outRows, inRows);
      peer in l <==> WithPeer(outRows, false, peer) || WithPeer(inRows, true, peer)
    ensures var l := Latest(outRows, inRows);
      peer in l ==>
        (forall i :: 0 <= i < |outRows| && outRows[i].receiverId == peer ==> outRows[i].createdAt <= l[peer].row.createdAt) &&
        (forall j :: 0 <= j < |inRows| && inRows[j].senderId == peer ==> inRows[j].createdAt <= l[peer].row.createdAt)
    ensures var l := Latest(outRows, inRows);
      peer in l && !l[peer].incoming ==>
        exists i :: 0 <= i < |outRows| && outRows[i].receiverId == peer && l[peer].row == outRows[i]
    ensures var l := Latest(outRows, inRows);
      peer in l && l[peer].incoming ==>
        (exists j :: 0 <= j < |inRows| && inRows[j].senderId == peer && l[peer].row == inRows[j]) &&
        (forall i :: 0 <= i < |outRows| && outRows[i].receiverId == peer ==> outRows[i].createdAt < l[peer].row.createdAt)
  {
    var a := CombineAll(map[], outRows, false);
    CombineKeys(map[], outRows, false);
    CombineMax(map[], outRows, false);
    CombineOrigin(map[], outRows, false);
    CombineKeys(a, inRows, true);
    CombineMax(a, inRows, true);
    CombineKeeps(a, inRows, true);
    CombineOrigin(a, inRows, true);
    assert forall k :: k in a ==> !a[k].incoming;
  }

  /** The status line under a peer's name in the inbox (app.js:1130-1153):
      the merged latest message with the prefix of its batch, or, with no
      message, "Active now", the time since last seen, or "Offline". The
      time-ago text is given, not computed. */
  function InboxStatus(last: Option<Last>, isOnline: bool, lastActiveAgo: Option<string>): (r: string)
    ensures last.Some? ==>
      (StartsWith(r, "Received: ") <==> last.value.incoming) &&
      (StartsWith(r, "You: ") <==> !last.value.incoming) &&
      r == SnippetPrefix(last.value.incoming) + SnippetBody(last.value.row.msgType, last.value.row.content)
    ensures last.None? && isOnline ==> r == "Active now"
    ensures last.None? && !isOnline && lastActiveAgo.Some? ==> r == lastActiveAgo.value
    ensures last.None? && !isOnline && lastActiveAgo.None? ==> r == "Offline"
  {
    if last.Some? then
      var body := SnippetBody(last.value.row.msgType, last.value.row.content);
      PrefixTells(last.value.incoming, body);
      SnippetPrefix(last.value.incoming) + body
    else if isOnline then "Active now"
    else if lastActiveAgo.Some? then lastActiveAgo.value
    else "Offline"
  }

  /** The line drawn when the inbox loads is the line a realtime update
      would draw for the same row: for rows I sent to others and rows sent
      to me, the merged `incoming` flag is exactly "I am the receiver". */
  lemma InboxAgreesWithLiveSnippet(outRows: seq<Message>, inRows: seq<Message>, me: string, peer: string)
    requires forall i :: 0 <= i < |outRows| ==> outRows[i].senderId == me && outRows[i].receiverId != me
    requires forall j :: 0 <= j < |inRows| ==> inRows[j].receiverId == me
    requires peer in Latest(outRows, inRows)
    ensures var last := Latest(outRows, inRows)[peer];
      last.incoming == (last.row.receiverId == me) &&
      InboxStatus(Some(last), false, None) == ListSnippet(Some(last.row), Some(me))
  {
    LatestFacts(outRows, inRows, peer);
  }
}
