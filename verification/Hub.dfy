/** The realtime hub (realtime_hub.c): a slot table of connected clients that acts as a map from
    descriptors to clients. */
module Hub {
  import opened Bytes
  import EventText
  import Frames

  const MAX_CLIENTS: nat := 10000
  const SSE_BUFFER: nat := 4608                                     // of which one byte is for the NUL

  /** A slot; the write buffer, which nothing fills, is left out. */
  datatype Client = Client(fd: int, ws: bool, sse: bool, user: int, job: int)

  const FREE: Client := Client(0, false, false, 0, 0)

  type Table = map<int, Client>

  // ----- slots as a map -----

  /** Occupied slots have different descriptors; descriptor 0 marks a free slot. */
  predicate Distinct(slots: seq<Client>) {
    && (forall i :: 0 <= i < |slots| ==> slots[i].fd >= 0)
    && forall i, j :: 0 <= i < j < |slots| && slots[i].fd == slots[j].fd ==> slots[i].fd == 0
  }

  predicate HoldsFd(slots: seq<Client>, fd: int) {
    exists i :: 0 <= i < |slots| && slots[i].fd == fd
  }

  ghost predicate Represents(slots: seq<Client>, table: Table) {
    && (forall i :: 0 <= i < |slots| && slots[i].fd > 0 ==> slots[i].fd in table && table[slots[i].fd] == slots[i])
    && forall fd :: fd in table ==> fd > 0 && HoldsFd(slots, fd)
  }

  function Occupied(slots: seq<Client>): (n: nat)
    ensures n <= |slots|
  {
    if slots == [] then 0 else Occupied(slots[..|slots| - 1]) + if slots[|slots| - 1].fd > 0 then 1 else 0
  }

  lemma {:induction false} OccupiedUpdate(slots: seq<Client>, i: nat, c: Client)
    requires i < |slots|
    ensures Occupied(slots[i := c]) ==
            Occupied(slots) - (if slots[i].fd > 0 then 1 else 0) + (if c.fd > 0 then 1 else 0)
    ensures slots[i].fd <= 0 ==> Occupied(slots) < |slots|
  {
    var n := |slots| - 1;
    if i < n {
      OccupiedUpdate(slots[..n], i, c);
      assert slots[i := c][..n] == slots[..n][i := c];
    } else {
      assert slots[i := c][..n] == slots[..n];
    }
  }

  lemma {:induction false} OccupiedFull(slots: seq<Client>)
    requires forall i :: 0 <= i < |slots| ==> slots[i].fd > 0
    ensures Occupied(slots) == |slots|
  {
    if slots == [] {
    } else {
      OccupiedFull(slots[..|slots| - 1]);
    }
  }

  /** The map has one entry for every occupied slot. */
  lemma {:induction false} TableSize(slots: seq<Client>, table: Table)
    requires Distinct(slots) && Represents(slots, table)
    ensures |table| == Occupied(slots)
  {
    if slots == [] {
      NoSlots(table);
    } else {
      var n := |slots| - 1;
      var less := table - {slots[n].fd};
      FrontTable(slots, table);
      TableSize(slots[..n], less);
      assert table == if slots[n].fd > 0 then less[slots[n].fd := slots[n]] else less;
    }
  }

  lemma NoSlots(table: Table)
    requires Represents([], table)
    ensures |table| == 0
  {
    forall fd: int
      ensures fd !in table.Keys
    {
      assert fd in table ==> HoldsFd([], fd);
    }
    assert table.Keys == {};
    assert |table| == |table.Keys|;
  }

  lemma FrontTable(slots: seq<Client>, table: Table)
    requires slots != [] && Distinct(slots) && Represents(slots, table)
    ensures var n := |slots| - 1;
            && Distinct(slots[..n]) && Represents(slots[..n], table - {slots[n].fd})
            && (slots[n].fd in table <==> slots[n].fd > 0)
            && (slots[n].fd > 0 ==> table[slots[n].fd] == slots[n])
  {
  }

  // ----- what the operations do to the map -----

  /** Every client but `fd` is as before. */
  ghost predicate OthersKept(before: Table, after: Table, fd: int) {
    forall other :: other != fd ==>
      (other in after <==> other in before) && (other in after ==> after[other] == before[other])
  }

  predicate Wants(c: Client, event: int) {
    c.job == 0 || c.job == event
  }

  /** An event built for job `job`, of a type without the job key, is wanted by exactly the clients
      subscribed to everything or to that job. */
  lemma {:induction false} EventGoesToItsJob(kind: bytes, job: nat, payload: bytes, time: bytes, c: Client)
    requires !EventText.Occurs([QUOTE] + kind, EventText.JOB_KEY) && job <= INT_MAX
    ensures Wants(c, EventText.ExtractJobId(EventText.EventText(kind, job, payload, time))) <==> c.job in {0, job}
  {
    hide EventText.ExtractJobId, EventText.EventText, EventText.Occurs;
    EventText.OwnKeyFound(kind, job, payload, time);
  }

  /** Bytes handed to a socket. */
  datatype Send = Send(fd: int, data: bytes)

  /** A text as a server-sent event. */
  function SseText(json: bytes): bytes {
    Ascii("data: ") + json + [LF, LF]
  }

  /** The client has a transport that takes this text; otherwise nothing is sent at all. */
  predicate Carries(c: Client, json: bytes) {
    if c.ws then |json| <= Frames.MAX_SENT else c.sse && |SseText(json)| < SSE_BUFFER
  }

  /** What such a client is sent: a text frame or an event. */
  function Carried(c: Client, json: bytes): bytes
    requires Carries(c, json)
  {
    if c.ws then Frames.Sent(Frames.TEXT, json) else SseText(json)
  }

  /** Whether a send to a client succeeds; `accepts(fd)` tells whether the socket takes the bytes. */
  predicate Delivered(c: Client, json: bytes, accepts: int -> bool) {
    Carries(c, json) && accepts(c.fd)
  }

  predicate Dropped(c: Client, event: int, json: bytes, accepts: int -> bool) {
    c.fd > 0 && Wants(c, event) && !Delivered(c, json, accepts)
  }

  /** The clients that stay connected after a broadcast. */
  ghost function Survivors(t: Table, event: int, json: bytes, accepts: int -> bool): Table {
    map fd | fd in t && !Dropped(t[fd], event, json, accepts) :: t[fd]
  }

  function SendTo(c: Client, event: int, json: bytes): seq<Send> {
    if c.fd > 0 && Wants(c, event) && Carries(c, json) then [Send(c.fd, Carried(c, json))] else []
  }

  function SendsTo(slots: seq<Client>, event: int, json: bytes): seq<Send> {
    if slots == [] then []
    else SendsTo(slots[..|slots| - 1], event, json) + SendTo(slots[|slots| - 1], event, json)
  }

  lemma NoSends(event: int, json: bytes)
    ensures SendsTo([], event, json) == []
  {
  }

  lemma SendsToNext(slots: seq<Client>, i: nat, event: int, json: bytes)
    requires i < |slots|
    ensures SendsTo(slots[..i + 1], event, json) ==
            SendsTo(slots[..i], event, json) + SendTo(slots[i], event, json)
  {
    assert slots[..i + 1][..i] == slots[..i];
  }

  /** Sent to exactly the clients that want the event and have a transport that carries
      it, over theirs, once each. */
  ghost predicate SentExactly(sends: seq<Send>, t: Table, event: int, json: bytes) {
    && (forall s :: s in sends <==>
          s.fd in t && Wants(t[s.fd], event) && Carries(t[s.fd], json) && s.data == Carried(t[s.fd], json))
    && forall i, j :: 0 <= i < j < |sends| ==> sends[i].fd != sends[j].fd
  }

  lemma {:induction false} SendsToSlots(slots: seq<Client>, event: int, json: bytes, s: Send)
    ensures s in SendsTo(slots, event, json) <==> exists i :: 0 <= i < |slots| && s in SendTo(slots[i], event, json)
  {
    hide SendTo;
    if slots == [] {
    } else {
      var n := |slots| - 1;
      SendsToSlots(slots[..n], event, json, s);
      if s in SendsTo(slots, event, json) && s in SendsTo(slots[..n], event, json) {
        var i :| 0 <= i < n && s in SendTo(slots[..n][i], event, json);
        assert s in SendTo(slots[i], event, json);
      }
      if i :| 0 <= i < |slots| && s in SendTo(slots[i], event, json) {
        assert i < n ==> s in SendTo(slots[..n][i], event, json);
      }
    }
  }

  lemma SendToOne(c: Client, event: int, json: bytes)
    ensures var r := SendTo(c, event, json); |r| <= 1 && (r != [] ==> r[0].fd == c.fd > 0)
  {
  }

  lemma {:induction false} SendsToOnce(slots: seq<Client>, event: int, json: bytes)
    requires Distinct(slots)
    ensures var r := SendsTo(slots, event, json); forall i, j :: 0 <= i < j < |r| ==> r[i].fd != r[j].fd
  {
    hide SendTo;
    if slots == [] {
    } else {
      var n := |slots| - 1;
      SendsToOnce(slots[..n], event, json);
      SendToOne(slots[n], event, json);
      var r := SendsTo(slots[..n], event, json);
      forall i | 0 <= i < |r|
        ensures slots[n].fd <= 0 || r[i].fd != slots[n].fd
      {
        SendsToSlots(slots[..n], event, json, r[i]);
        var k :| 0 <= k < n && r[i] in SendTo(slots[..n][k], event, json);
        assert slots[..n][k] == slots[k];
        SendToOne(slots[k], event, json);
      }
      var all, last := SendsTo(slots, event, json), SendTo(slots[n], event, json);
      assert all == r + last;
      forall i, j | 0 <= i < j < |all|
        ensures all[i].fd != all[j].fd
      {
        assert all[i] == r[i];
        assert j < |r| ==> all[j] == r[j];
        assert j >= |r| ==> all[j] == last[0];
      }
    }
  }

  lemma SendsToTable(slots: seq<Client>, t: Table, event: int, json: bytes)
    requires Distinct(slots) && Represents(slots, t)
    ensures SentExactly(SendsTo(slots, event, json), t, event, json)
  {
    hide SendsTo;
    SendsToOnce(slots, event, json);
    forall s: Send
      ensures s in SendsTo(slots, event, json) <==>
              s.fd in t && Wants(t[s.fd], event) && Carries(t[s.fd], json) && s.data == Carried(t[s.fd], json)
    {
      SendsToSlots(slots, event, json, s);
      if s.fd in t {
        assert HoldsFd(slots, s.fd);
        var i :| 0 <= i < |slots| && slots[i].fd == s.fd;
        assert t[s.fd] == slots[i];
      }
    }
  }

  // ----- the hub -----

  class Hub {
    const clients: array<Client>
    var count: int
    ghost var table: Table

    ghost predicate Valid()
      reads this, clients
    {
      clients.Length == MAX_CLIENTS && Distinct(clients[..]) && Represents(clients[..], table)
    }

    /** `count` is the number of clients. */
    ghost predicate CountRight()
      reads this
    {
      count == |table|
    }

    constructor ()
      ensures Valid() && CountRight() && table == map[] && fresh(clients)
    {
      clients := new Client[MAX_CLIENTS](_ => FREE);
      count, table := 0, map[];
    }

    /** The slot of a descriptor: the first loop of `rt_hub_add_client`. With 0, the first free one. */
    method Slot(fd: int) returns (i: nat)
      requires Valid()
      ensures i <= MAX_CLIENTS
      ensures i < MAX_CLIENTS ==> clients[i].fd == fd
      ensures forall k :: 0 <= k < i ==> clients[k].fd != fd
      ensures fd != 0 ==> (i < MAX_CLIENTS <==> fd in table)
      ensures fd == 0 ==> (i < MAX_CLIENTS <==> |table| < MAX_CLIENTS)
    {
      i := 0;
      while i < MAX_CLIENTS && clients[i].fd != fd
        invariant 0 <= i <= MAX_CLIENTS
        invariant forall k :: 0 <= k < i ==> clients[k].fd != fd
      {
        i := i + 1;
      }
      TableSize(clients[..], table);
      if i < MAX_CLIENTS {
        OccupiedUpdate(clients[..], i, clients[i]);
        assert clients[..][i].fd == fd;
      } else {
        if fd == 0 {
          OccupiedFull(clients[..]);
        }
        assert forall k :: 0 <= k < |clients[..]| ==> clients[..][k].fd != fd;
      }
    }

    /** Overwrites a slot with another state of the same client, or of a free slot. */
    method Change(i: nat, c: Client)
      requires Valid() && i < MAX_CLIENTS && c.fd == clients[i].fd
      modifies this`table, clients
      ensures Valid() && count == old(count)
      ensures table == if c.fd > 0 then old(table)[c.fd := c] else old(table)
      ensures |table| == |old(table)|
      ensures clients[..] == old(clients[..])[i := c]
    {
      clients[i] := c;
      if c.fd > 0 {
        table := table[c.fd := c];
      }
      SlotChanged(old(clients[..]), i, c, old(table));
    }

    /** `rt_hub_add_client`. A descriptor that is already there keeps user and subscription. Descriptor 0
        is answered like any other, but adds no client. */
    method AddClient(fd: int, ws: bool, sse: bool) returns (rc: int)
      requires Valid()
      modifies this, clients
      ensures Valid() && (old(CountRight()) ==> CountRight())
      ensures rc == if fd < 0 || (fd !in old(table) && |old(table)| == 10000) then -1 else 0
      ensures rc != 0 || fd == 0 ==> table == old(table)
      ensures rc == 0 && fd > 0 ==>
                && OthersKept(old(table), table, fd)
                && fd in table && table[fd].fd == fd && table[fd].ws == ws && table[fd].sse == sse
                && table[fd].user == (if fd in old(table) then old(table)[fd].user else 0)
                && table[fd].job == (if fd in old(table) then old(table)[fd].job else 0)
    {
      if fd < 0 {
        assert fd !in table;
        return -1;
      }
      var i := Slot(fd);
      TableFits();
      if i < MAX_CLIENTS {
        Change(i, clients[i].(ws := ws, sse := sse));
        return 0;
      }
      i := Slot(0);
      if i < MAX_CLIENTS {
        ghost var before := clients[..];
        clients[i] := Client(fd, ws, sse, 0, 0);
        SlotTaken(before, i, clients[i], table);
        table := table[fd := clients[i]];
        assert clients[..] == before[i := clients[i]];
        count := count + 1;
        return 0;
      }
      return -1;
    }

    /** Slots bound the number of clients. */
    lemma TableFits()
      requires Valid()
      ensures |table| <= MAX_CLIENTS && 0 !in table
    {
      TableSize(clients[..], table);
    }

    lemma KeyedByFd(fd: int)
      requires Valid() && fd in table
      ensures fd > 0 && table[fd].fd == fd
    {
      assert HoldsFd(clients[..], fd);
    }

    /** `rt_hub_remove_client`. Descriptor 0 is found in a free slot: then the count goes wrong. */
    method RemoveClient(fd: int)
      requires Valid()
      modifies this, clients
      ensures Valid() && table == old(table) - {fd}
      ensures old(CountRight()) ==>
                (CountRight() <==> fd != 0 || |old(table)| == 0 || |old(table)| == MAX_CLIENTS)
      ensures forall k :: 0 <= k < MAX_CLIENTS && old(clients[k]).fd != fd ==> clients[k] == old(clients[k])
      ensures forall k :: 0 <= k < MAX_CLIENTS && old(clients[k]).fd == fd && fd > 0 ==> clients[k] == FREE
    {
      TableFits();
      if fd < 0 {
        assert table - {fd} == table;
        return;
      }
      var i := Slot(fd);
      if i < MAX_CLIENTS {
        ghost var before := clients[..];
        clients[i] := FREE;
        SlotFreed(before, i, table);
        table := table - {fd};
        assert clients[..] == before[i := FREE];
        if count > 0 {
          count := count - 1;
        }
      } else {
        assert table - {fd} == table;
      }
    }

    /** `rt_hub_set_subscription`. */
    method SetSubscription(fd: int, job: int)
      requires Valid()
      modifies this`table, clients
      ensures Valid() && (old(CountRight()) ==> CountRight())
      ensures fd in old(table) ==>
                && OthersKept(old(table), table, fd) && fd in table
                && table[fd] == old(table)[fd].(job := table[fd].job)
                && table[fd].job == (if job > 0 then job else 0)
      ensures fd !in old(table) ==> table == old(table)
    {
      TableFits();
      var i := Slot(fd);
      if i < MAX_CLIENTS {
        Change(i, clients[i].(job := if job > 0 then job else 0));
      }
    }

    /** `rt_hub_broadcast`: who gets the event, and who is cut off. */
    method Broadcast(json: Option<bytes>, accepts: int -> bool) returns (sends: seq<Send>, shut: set<int>)
      requires Valid()
      modifies this, clients
      ensures Valid() && (old(CountRight()) ==> CountRight())
      ensures json.None? ==> sends == [] && table == old(table) && shut == {}
      ensures json.Some? ==>
                var event := EventText.ExtractJobId(json.value);
                && SentExactly(sends, old(table), event, json.value)
                && table == Survivors(old(table), event, json.value, accepts)
                && shut == old(table).Keys - table.Keys
    {
      hide Distinct, Represents, Dropped, SendsTo, EventText.ExtractJobId, SentExactly, Swept;
      if json.None? {
        return [], {};
      }
      var event := EventText.ExtractJobId(json.value);
      ghost var before := clients[..];
      sends, shut := BroadcastAll(event, json.value, accepts);
      SendsToTable(before, old(table), event, json.value);
      SurvivorsLeft(before, old(table), clients[..], table, event, json.value, accepts);
    }

    /** The loop over the slots. */
    method BroadcastAll(event: int, json: bytes, accepts: int -> bool) returns (sends: seq<Send>, shut: set<int>)
      requires Valid()
      modifies this, clients
      ensures Valid() && (old(CountRight()) ==> CountRight())
      ensures sends == SendsTo(old(clients[..]), event, json)
      ensures CutOff(old(table), table, shut)
      ensures Swept(old(clients[..]), clients[..], MAX_CLIENTS, event, json, accepts)
    {
      hide Distinct, Represents, Dropped, SendsTo, SendTo, Swept;
      ghost var before := clients[..];
      sends, shut := [], {};
      NoSends(event, json);
      NothingSwept(before, event, json, accepts);
      NobodyCutOff(table);
      assert before[..0] == [] && |before| == MAX_CLIENTS;
      hide Hub.Valid, Hub.CountRight, CutOff;
      var i := 0;
      while i < MAX_CLIENTS
        invariant 0 <= i <= MAX_CLIENTS && Valid() && (old(CountRight()) ==> CountRight())
        invariant Swept(before, clients[..], i, event, json, accepts)
        invariant sends == SendsTo(before[..i], event, json)
        invariant CutOff(old(table), table, shut)
      {
        ghost var now, t := clients[..], table;
        var more, cut := BroadcastTo(i, event, json, accepts);
        SweptOne(before, now, clients[..], i, event, json, accepts);
        CutOffFurther(old(table), t, table, shut, cut);
        sends, shut := sends + more, shut + cut;
        SendsToNext(before, i, event, json);
        i := i + 1;
      }
      assert before[..MAX_CLIENTS] == before;
    }

    /** One round of the loop. */
    method BroadcastTo(i: nat, event: int, json: bytes, accepts: int -> bool)
      returns (sends: seq<Send>, shut: set<int>)
      requires Valid() && i < MAX_CLIENTS
      modifies this, clients
      ensures Valid() && (old(CountRight()) ==> CountRight())
      ensures sends == SendTo(old(clients[i]), event, json)
      ensures CutOff(old(table), table, shut)
      ensures clients[..] ==
              if Dropped(old(clients[i]), event, json, accepts) then old(clients[..])[i := FREE] else old(clients[..])
    {
      var client := clients[i];
      sends, shut := [], {};
      assert table - shut == table;
      if client.fd > 0 && (client.job == 0 || client.job == event) {
        var ok := false;
        if client.ws {
          if |json| <= Frames.MAX_SENT {
            sends, ok := [Send(client.fd, Frames.Sent(Frames.TEXT, json))], accepts(client.fd);
          }
        } else if client.sse {
          var text := SseText(json);
          if |text| < SSE_BUFFER {
            sends, ok := [Send(client.fd, text)], accepts(client.fd);
          }
        }
        if !ok {
          assert clients[..][i] == client;
          shut := {client.fd};
          RemoveClient(client.fd);
        }
      }
    }
  }

  // ----- slots that change -----

  /** `after` is `before` without the clients `shut`. */
  ghost predicate CutOff(before: Table, after: Table, shut: set<int>) {
    shut <= before.Keys && after == before - shut
  }

  lemma CutOffFurther(before: Table, middle: Table, after: Table, a: set<int>, b: set<int>)
    requires CutOff(before, middle, a) && CutOff(middle, after, b)
    ensures CutOff(before, after, a + b)
  {
  }

  lemma NobodyCutOff(t: Table)
    ensures CutOff(t, t, {})
  {
  }

  /** The first `i` slots have been swept by a broadcast. */
  ghost predicate Swept(
    before: seq<Client>, now: seq<Client>, i: nat, event: int, json: bytes, accepts: int -> bool)
  {
    && |now| == |before| && i <= |before|
    && (forall k :: i <= k < |before| ==> now[k] == before[k])
    && forall k :: 0 <= k < i ==> now[k] == if Dropped(before[k], event, json, accepts) then FREE else before[k]
  }

  lemma NothingSwept(before: seq<Client>, event: int, json: bytes, accepts: int -> bool)
    ensures Swept(before, before, 0, event, json, accepts)
  {
  }

  lemma SweptOne(
    before: seq<Client>, now: seq<Client>, next: seq<Client>, i: nat, event: int, json: bytes, accepts: int -> bool)
    requires Swept(before, now, i, event, json, accepts) && i < |before|
    requires next == if Dropped(now[i], event, json, accepts) then now[i := FREE] else now
    ensures Swept(before, next, i + 1, event, json, accepts) && now[i] == before[i]
  {
    hide Dropped;
  }

  lemma SlotChanged(slots: seq<Client>, i: nat, c: Client, t: Table)
    requires Distinct(slots) && Represents(slots, t) && i < |slots| && c.fd == slots[i].fd
    ensures var after := slots[i := c];
            var u := if c.fd > 0 then t[c.fd := c] else t;
            Distinct(after) && Represents(after, u) && |u| == |t|
  {
    var after := slots[i := c];
    forall fd | fd in t
      ensures HoldsFd(after, fd)
    {
      assert HoldsFd(slots, fd);
      var k :| 0 <= k < |slots| && slots[k].fd == fd;
      assert after[k].fd == fd;
    }
    assert forall k :: 0 <= k < |after| ==> after[k].fd == slots[k].fd;
    assert c.fd > 0 ==> after[i].fd == c.fd;
    if c.fd > 0 {
      assert t[c.fd := c].Keys == t.Keys;
      assert |t.Keys| == |t| && |t[c.fd := c].Keys| == |t[c.fd := c]|;
    }
  }

  lemma SlotTaken(slots: seq<Client>, i: nat, c: Client, t: Table)
    requires Distinct(slots) && Represents(slots, t) && i < |slots|
    requires slots[i].fd == 0 && c.fd > 0 && c.fd !in t
    ensures var after := slots[i := c]; Distinct(after) && Represents(after, t[c.fd := c]) && |t[c.fd := c]| == |t| + 1
  {
    var after := slots[i := c];
    forall fd | fd in t
      ensures HoldsFd(after, fd)
    {
      assert HoldsFd(slots, fd);
      var k :| 0 <= k < |slots| && slots[k].fd == fd;
      assert after[k].fd == fd;
    }
    assert after[i].fd == c.fd;
  }

  lemma SlotFreed(slots: seq<Client>, i: nat, t: Table)
    requires Distinct(slots) && Represents(slots, t) && i < |slots|
    ensures var after, u := slots[i := FREE], t - {slots[i].fd};
            Distinct(after) && Represents(after, u) && |u| == |t| - if slots[i].fd > 0 then 1 else 0
  {
    var after, u := slots[i := FREE], t - {slots[i].fd};
    forall fd | fd in u
      ensures HoldsFd(after, fd)
    {
      assert HoldsFd(slots, fd);
      var k :| 0 <= k < |slots| && slots[k].fd == fd;
      assert after[k].fd == fd;
    }
    if slots[i].fd > 0 {
      assert t == u[slots[i].fd := slots[i]];
    } else {
      assert u == t;
    }
  }

  lemma SurvivorsLeft(
    before: seq<Client>, t: Table, after: seq<Client>, u: Table,
    event: int, json: bytes, accepts: int -> bool)
    requires Represents(before, t) && Represents(after, u) && Swept(before, after, |before|, event, json, accepts)
    ensures u == Survivors(t, event, json, accepts)
  {
    hide Dropped;
    var s := Survivors(t, event, json, accepts);
    forall fd | fd in s
      ensures fd in u && u[fd] == s[fd]
    {
      assert HoldsFd(before, fd);
      var k :| 0 <= k < |before| && before[k].fd == fd;
      assert after[k] == before[k];
    }
    forall fd | fd in u
      ensures fd in s
    {
      assert HoldsFd(after, fd);
      var k :| 0 <= k < |after| && after[k].fd == fd;
      assert after[k] == before[k];
    }
  }

  // ----- several calls -----

  /** A client that has just been added gets the next text over the transport it was added with, and is cut
      off if that transport cannot carry it or there is none. */
  method AddThenBroadcast(hub: Hub, fd: int, ws: bool, sse: bool, json: bytes, accepts: int -> bool)
    returns (rc: int, sends: seq<Send>)
    requires hub.Valid() && fd > 0
    modifies hub, hub.clients
    ensures hub.Valid()
    ensures rc == 0 && fd !in old(hub.table) ==>
              && (forall data :: Send(fd, data) in sends <==>
                    if ws then |json| <= 4096 && data == Frames.Sent(Frames.TEXT, json)
                    else sse && |json| < 4600 && data == Ascii("data: ") + json + [LF, LF])
              && (fd in hub.table <==> (if ws then |json| <= 4096 else sse && |json| < 4600) && accepts(fd))
  {
    hide Hub.Valid, OthersKept, Frames.Sent, EventText.ExtractJobId;
    rc := hub.AddClient(fd, ws, sse);
    var shut;
    sends, shut := hub.Broadcast(Some(json), accepts);
  }

  /** A client hears the event of a job exactly if it is subscribed to that job or to everything; one that
      should hear it and cannot is cut off, every other one stays. */
  method SubscribeThenEmit(
      hub: Hub, fd: int, job: int, kind: bytes, id: nat, payload: bytes, time: bytes, accepts: int -> bool)
    returns (sends: seq<Send>)
    requires hub.Valid() && fd in hub.table && id <= INT_MAX
    requires !EventText.Occurs([QUOTE] + kind, EventText.JOB_KEY)
    modifies hub, hub.clients
    ensures var json := EventText.EventText(kind, id, payload, time);
            var heard, carried := exists data :: Send(fd, data) in sends, Carries(old(hub.table)[fd], json);
            && (heard <==> (job <= 0 || job == id) && carried)
            && (fd in hub.table <==> (job > 0 && job != id) || (carried && accepts(fd)))
  {
    hide Hub.Valid, OthersKept, Frames.Sent, EventText.ExtractJobId, EventText.EventText, EventText.Occurs;
    var json := EventText.EventText(kind, id, payload, time);
    hub.SetSubscription(fd, job);
    EventText.OwnKeyFound(kind, id, payload, time);
    hub.KeyedByFd(fd);
    var shut;
    ghost var t := hub.table;
    sends, shut := hub.Broadcast(Some(json), accepts);
    assert Carries(t[fd], json) ==> (Send(fd, Carried(t[fd], json)) in sends <==> Wants(t[fd], id));
  }
}
