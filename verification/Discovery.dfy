/** The filters of src/modules/onvif/onvif_discovery.c: the ring of recent message ids, the cache of
    recent clients, and their use for one probe. Times are whole seconds. */
module Discovery {
  import opened Common
  import opened Ring

  const MAX_MESSAGE_ID_LEN: nat := 128
  const MAX_RECENT_MESSAGES: nat := 20
  const MAX_RECENT_CLIENTS: nat := 20
  const DUPLICATE_SECONDS: int := 5
  const RESPONSE_COOLDOWN_SECONDS: int := 1

  // ---- Message ids ----

  datatype Message = Message(id: string, at: int)

  /** What `strncpy` and the terminator leave of an id. */
  function Stored(id: string): string {
    if |id| < MAX_MESSAGE_ID_LEN then id else id[..MAX_MESSAGE_ID_LEN - 1]
  }

  /** Entry `k` of the acceptance log makes `id` a duplicate at time `now`. */
  predicate Matches(log: seq<Message>, k: nat, id: string, now: int)
    requires k < |log|
  {
    Stored(log[k].id) == id && now - log[k].at < DUPLICATE_SECONDS
  }

  /** One of the last accepted messages is stored under this id and is recent. */
  ghost predicate Duplicate(log: seq<Message>, id: string, now: int) {
    exists k :: Oldest(MAX_RECENT_MESSAGES, |log|) <= k < |log| && Matches(log, k, id, now)
  }

  /** A slot that was never used looks like an empty id accepted at time zero. */
  predicate EmptyMatches(log: seq<Message>, id: string, now: int) {
    id == "" && |log| < MAX_RECENT_MESSAGES && now < DUPLICATE_SECONDS
  }

  /** What the ring answers. */
  ghost predicate Refused(log: seq<Message>, id: string, now: int) {
    Duplicate(log, id, now) || EmptyMatches(log, id, now)
  }

  /** What it should answer: one of the last accepted messages has exactly this id and is recent. */
  ghost predicate Ideal(log: seq<Message>, id: string, now: int) {
    exists k :: Oldest(MAX_RECENT_MESSAGES, |log|) <= k < |log| && log[k].id == id && now - log[k].at < DUPLICATE_SECONDS
  }

  /** Every message was accepted because it was not refused at its time. */
  ghost predicate Accepted(log: seq<Message>) {
    forall k :: 0 <= k < |log| ==> !Refused(log[..k], log[k].id, log[k].at)
  }

  ghost predicate Chronological(log: seq<Message>) {
    forall i, j :: 0 <= i < j < |log| ==> log[i].at <= log[j].at
  }

  /** No id is accepted twice within the window, unless 20 other messages were accepted in between. */
  lemma {:induction false} AcceptedApart(log: seq<Message>, i: nat, j: nat)
    requires Accepted(log) && i < j < |log| && j - i <= MAX_RECENT_MESSAGES
    requires log[i].id == log[j].id && |log[i].id| < MAX_MESSAGE_ID_LEN
    ensures log[j].at - log[i].at >= 5
  {
    assert !Refused(log[..j], log[j].id, log[j].at);
    assert log[..j][i] == log[i];
    assert !Matches(log[..j], i, log[j].id, log[j].at);
  }

  /** Unexpired entries of the ring have different ids. */
  lemma {:induction false} UnexpiredDistinct(log: seq<Message>, i: nat, j: nat, now: int)
    requires Accepted(log) && Chronological(log)
    requires Oldest(MAX_RECENT_MESSAGES, |log|) <= i < j < |log|
    requires now - log[i].at < DUPLICATE_SECONDS && log[j].at <= now
    requires |log[i].id| < MAX_MESSAGE_ID_LEN && |log[j].id| < MAX_MESSAGE_ID_LEN
    ensures Stored(log[i].id) != Stored(log[j].id)
  {
    if log[i].id == log[j].id {
      AcceptedApart(log, i, j);
    }
  }

  /** As long as all accepted ids fit their slots, an id is refused iff one of the last accepted ids
      equals it and is recent. */
  lemma {:induction false} FittingIdsExact(log: seq<Message>, id: string, now: int)
    requires id != "" && forall k :: 0 <= k < |log| ==> |log[k].id| < 128
    ensures Refused(log, id, now) <==>
              exists k :: 0 <= k < |log| && |log| - 20 <= k && log[k].id == id && now - log[k].at < 5
    ensures Refused(log, id, now) <==> Ideal(log, id, now)
  {
    if k :| Oldest(MAX_RECENT_MESSAGES, |log|) <= k < |log| && log[k].id == id && now - log[k].at < DUPLICATE_SECONDS {
      assert Matches(log, k, id, now);
    }
  }

  /** What the empty id meets: accepted empty ids, and slots that were never used. */
  lemma {:induction false} EmptyIdExact(log: seq<Message>, now: int)
    ensures Refused(log, "", now) <==>
              || (exists k :: 0 <= k < |log| && |log| - 20 <= k && log[k].id == "" && now - log[k].at < 5)
              || (|log| < 20 && now < 5)
  {
    if k :| 0 <= k < |log| && |log| - 20 <= k && log[k].id == "" && now - log[k].at < 5 {
      assert Matches(log, k, "", now);
    }
  }

  /** A log whose answer for the id is wrong at time zero: nothing at all for the empty id, the accepted
      id itself when it does not fit, and a longer id that is stored as this one. */
  function WrongLog(id: string): seq<Message> {
    if id == "" then []
    else if |id| < MAX_MESSAGE_ID_LEN then [Message(id + "x", 0)]
    else [Message(id, 0)]
  }

  lemma {:induction false} WrongAnswer(id: string)
    requires id == "" || |id| >= MAX_MESSAGE_ID_LEN - 1
    ensures Accepted(WrongLog(id))
    ensures Refused(WrongLog(id), id, 0) <==> !Ideal(WrongLog(id), id, 0)
  {
    var log := WrongLog(id);
    if id != "" {
      assert log[..0] == [];
      if |id| < MAX_MESSAGE_ID_LEN {
        assert (id + "x")[..MAX_MESSAGE_ID_LEN - 1] == id;
        assert Stored(id + "x") == id;
        assert Matches(log, 0, id, 0);
      } else {
        assert |Stored(id)| != |id|;
        assert Ideal(log, id, 0);
      }
    }
  }

  /** For which ids the ring answers as it should, whatever was accepted before: exactly for those of 1 to
      126 bytes. An id of 127 bytes is taken for a longer one that was cut to it. */
  lemma {:induction false} DedupeExactly(id: string)
    ensures (forall log, now :: Accepted(log) ==> (Refused(log, id, now) <==> Ideal(log, id, now)))
            <==> 0 < |id| < 127
  {
    if 0 < |id| < MAX_MESSAGE_ID_LEN - 1 {
      forall log, now
        ensures Refused(log, id, now) <==> Ideal(log, id, now)
      {
        ShortIdExact(log, id, now);
      }
    } else {
      WrongAnswer(id);
    }
  }

  /** An id that does not fit its slot is never recognised again. */
  lemma {:induction false} LongIdsNeverDuplicate(log: seq<Message>, id: string, now: int)
    requires |id| >= MAX_MESSAGE_ID_LEN
    ensures !Refused(log, id, now)
  {
  }

  lemma {:induction false} ShortIdExact(log: seq<Message>, id: string, now: int)
    requires 0 < |id| < MAX_MESSAGE_ID_LEN - 1
    ensures Refused(log, id, now) <==> Ideal(log, id, now)
  {
    forall k | 0 <= k < |log|
      ensures Stored(log[k].id) == id <==> log[k].id == id
    {
    }
    if k :| Oldest(MAX_RECENT_MESSAGES, |log|) <= k < |log| && log[k].id == id && now - log[k].at < DUPLICATE_SECONDS {
      assert Matches(log, k, id, now);
    }
  }

  // ---- Clients ----

  /** A client and the time of its last response. */
  datatype Client = Client(ip: nat, at: int)

  ghost predicate InCache(log: seq<Client>, k: int) {
    Oldest(MAX_RECENT_CLIENTS, |log|) <= k < |log|
  }

  /** Clients that are in the cache together are different. */
  ghost predicate DistinctClients(log: seq<Client>) {
    forall i, j :: InCache(log, i) && InCache(log, j) && i != j ==> log[i].ip != log[j].ip
  }

  /** Position of a client among the cached ones, searched below `n`. */
  function FindBelow(log: seq<Client>, ip: nat, n: nat): (r: Option<nat>)
    requires n <= |log|
    ensures r.Some? ==> Oldest(MAX_RECENT_CLIENTS, |log|) <= r.value < n && log[r.value].ip == ip
    ensures r.Some? ==> forall k :: r.value < k < n ==> log[k].ip != ip
    ensures r.None? ==> forall k :: Oldest(MAX_RECENT_CLIENTS, |log|) <= k < n ==> log[k].ip != ip
  {
    if n <= Oldest(MAX_RECENT_CLIENTS, |log|) then None
    else if log[n - 1].ip == ip then Some(n - 1)
    else FindBelow(log, ip, n - 1)
  }

  /** The insertion log after a request: a cached client that has cooled down gets a new time in its
      place, a client that is not cached is added at the end. */
  function AfterRequest(log: seq<Client>, ip: nat, now: int): seq<Client> {
    match FindBelow(log, ip, |log|)
    case None => log + [Client(ip, now)]
    case Some(k) => if now - log[k].at < RESPONSE_COOLDOWN_SECONDS then log else log[k := Client(ip, now)]
  }

  /** The request is answered: the client is not cached or has cooled down. */
  predicate Answered(log: seq<Client>, ip: nat, now: int) {
    match FindBelow(log, ip, |log|)
    case None => true
    case Some(k) => now - log[k].at >= RESPONSE_COOLDOWN_SECONDS
  }

  lemma {:induction false} RequestKeepsDistinct(log: seq<Client>, ip: nat, now: int)
    requires DistinctClients(log)
    ensures DistinctClients(AfterRequest(log, ip, now))
  {
  }

  /** The insertion log, and the time in the first slot that was never used. The address zero finds that
      slot and leaves its time there, without being inserted. */
  datatype Cache = Cache(log: seq<Client>, spare: int)

  const EMPTY_CACHE: Cache := Cache([], 0)

  predicate UsesSpare(c: Cache, ip: nat) {
    ip == 0 && |c.log| < MAX_RECENT_CLIENTS
  }

  /** The request is answered. */
  predicate Answers(c: Cache, ip: nat, now: int) {
    if UsesSpare(c, ip) then now - c.spare >= RESPONSE_COOLDOWN_SECONDS else Answered(c.log, ip, now)
  }

  function After(c: Cache, ip: nat, now: int): Cache {
    if UsesSpare(c, ip) then (if Answers(c, ip, now) then c.(spare := now) else c)
    else
      var log := AfterRequest(c.log, ip, now);
      Cache(log, if |log| > |c.log| then 0 else c.spare)
  }

  /** While slots are unused, no client in the log has the address zero. */
  ghost predicate ZeroMeansUnused(log: seq<Client>) {
    |log| <= MAX_RECENT_CLIENTS ==> forall k :: 0 <= k < |log| ==> log[k].ip != 0
  }

  // ---- The caches ----

  /** The log as the ring can store it. */
  function AllStored(log: seq<Message>): (s: seq<Message>)
    ensures |s| == |log| && forall k :: 0 <= k < |log| ==> s[k] == Message(Stored(log[k].id), log[k].at)
  {
    seq(|log|, k requires 0 <= k < |log| => Message(Stored(log[k].id), log[k].at))
  }

  /** `recent_messages`, with the log of accepted messages. */
  class RecentMessages {
    const messageIds: array<string>
    const timestamps: array<int>
    var nextIndex: nat
    ghost var accepted: seq<Message>

    /** The ring, slot by slot. */
    ghost function Slots(): (s: seq<Message>)
      requires messageIds.Length == timestamps.Length == MAX_RECENT_MESSAGES
      reads messageIds, timestamps
      ensures |s| == MAX_RECENT_MESSAGES
      ensures forall i :: 0 <= i < MAX_RECENT_MESSAGES ==> s[i] == Message(messageIds[i], timestamps[i])
    {
      seq(MAX_RECENT_MESSAGES, i requires 0 <= i < MAX_RECENT_MESSAGES reads messageIds, timestamps
                                 requires messageIds.Length == timestamps.Length == MAX_RECENT_MESSAGES =>
        Message(messageIds[i], timestamps[i]))
    }

    /** The slots hold the stored forms of the last accepted messages; the others are empty. */
    ghost predicate Valid()
      reads this, messageIds, timestamps
    {
      && messageIds.Length == timestamps.Length == MAX_RECENT_MESSAGES
      && nextIndex == Slot(MAX_RECENT_MESSAGES, |accepted|)
      && Represents(Slots(), AllStored(accepted))
      && (forall i :: |accepted| <= i < MAX_RECENT_MESSAGES ==> messageIds[i] == "" && timestamps[i] == 0)
      && Accepted(accepted)
    }

    constructor ()
      ensures Valid() && accepted == [] && fresh(messageIds) && fresh(timestamps)
    {
      messageIds := new string[MAX_RECENT_MESSAGES](_ => "");
      timestamps := new int[MAX_RECENT_MESSAGES](_ => 0);
      nextIndex := 0;
      accepted := [];
    }

    /** What a slot says about the log, and the other way round. */
    lemma {:induction false} SlotMatches(id: string, now: int)
      requires Valid()
      ensures (exists i :: 0 <= i < MAX_RECENT_MESSAGES && now - timestamps[i] < DUPLICATE_SECONDS && messageIds[i] == id)
              <==> Refused(accepted, id, now)
    {
      hide Slot, Accepted;
      var n := |accepted|;
      if i :| 0 <= i < MAX_RECENT_MESSAGES && now - timestamps[i] < DUPLICATE_SECONDS && messageIds[i] == id {
        if i < n {
          var k := Owner(MAX_RECENT_MESSAGES, n, i);
          assert Slots()[i] == AllStored(accepted)[k];
          assert Matches(accepted, k, id, now);
        }
      }
      if Duplicate(accepted, id, now) {
        var k :| Oldest(MAX_RECENT_MESSAGES, n) <= k < n && Matches(accepted, k, id, now);
        var i := Slot(MAX_RECENT_MESSAGES, k);
        assert Slots()[i] == AllStored(accepted)[k];
        assert messageIds[i] == id;
      } else if EmptyMatches(accepted, id, now) {
        assert messageIds[n] == id && now - timestamps[n] < DUPLICATE_SECONDS;
      }
    }

    /** `is_duplicate_message`: the ring answers as the log would, and a message that is not refused is
        accepted. */
    method IsDuplicateMessage(messageId: Option<string>, now: int) returns (duplicate: bool)
      requires Valid()
      modifies this`nextIndex, this`accepted, messageIds, timestamps
      ensures Valid()
      ensures duplicate <==> messageId.Some? && Refused(old(accepted), messageId.value, now)
      ensures accepted == old(accepted) + if messageId.Some? && !duplicate then [Message(messageId.value, now)] else []
    {
      hide Slot, Next, Accepted, Represents, Refused;
      if messageId.None? {
        return false;
      }
      var id := messageId.value;
      SlotMatches(id, now);
      for i := 0 to MAX_RECENT_MESSAGES
        invariant forall k :: 0 <= k < i ==> !(now - timestamps[k] < DUPLICATE_SECONDS && messageIds[k] == id)
      {
        if now - timestamps[i] < DUPLICATE_SECONDS && messageIds[i] == id {
          return true;
        }
      }
      Remember(id, now);
      return false;
    }

    /** Lines 152-155. */
    method Remember(id: string, now: int)
      requires Valid() && !Refused(accepted, id, now)
      modifies this`nextIndex, this`accepted, messageIds, timestamps
      ensures Valid() && accepted == old(accepted) + [Message(id, now)]
    {
      hide Represents, Refused;
      ghost var (slots, log) := (Slots(), AllStored(accepted));
      messageIds[nextIndex] := Stored(id);
      timestamps[nextIndex] := now;
      nextIndex := (nextIndex + 1) % MAX_RECENT_MESSAGES;
      accepted := accepted + [Message(id, now)];
      Append(slots, log, Message(Stored(id), now));
      assert AllStored(accepted) == log + [Message(Stored(id), now)];
      assert Slots() == slots[Slot(MAX_RECENT_MESSAGES, |log|) := Message(Stored(id), now)];
      AcceptedStep(old(accepted), Message(id, now));
      if |log| < MAX_RECENT_MESSAGES {
        FirstRound(MAX_RECENT_MESSAGES, |log|);
      }
    }
  }

  lemma {:induction false} AcceptedStep(log: seq<Message>, m: Message)
    requires Accepted(log) && !Refused(log, m.id, m.at)
    ensures Accepted(log + [m])
  {
    hide Refused;
    var next := log + [m];
    forall k | 0 <= k < |next|
      ensures !Refused(next[..k], next[k].id, next[k].at)
    {
      assert next[..k] == log[..k];
      assert log[..|log|] == log;
    }
  }

  /** `client_cooldown_cache`, with what it stands for. */
  class ClientCooldown {
    const clientIps: array<nat>
    const lastResponseTimes: array<int>
    var nextIndex: nat
    ghost var cache: Cache

    ghost function Slots(): (s: seq<Client>)
      requires clientIps.Length == lastResponseTimes.Length == MAX_RECENT_CLIENTS
      reads clientIps, lastResponseTimes
      ensures |s| == MAX_RECENT_CLIENTS
      ensures forall i :: 0 <= i < MAX_RECENT_CLIENTS ==> s[i] == Client(clientIps[i], lastResponseTimes[i])
    {
      seq(MAX_RECENT_CLIENTS, i requires 0 <= i < MAX_RECENT_CLIENTS reads clientIps, lastResponseTimes
                                requires clientIps.Length == lastResponseTimes.Length == MAX_RECENT_CLIENTS =>
        Client(clientIps[i], lastResponseTimes[i]))
    }

    /** The slots hold the last inserted clients, which are different; the others are zero, but for the
        time in the first of them. */
    ghost predicate Valid()
      reads this, clientIps, lastResponseTimes
    {
      && clientIps.Length == lastResponseTimes.Length == MAX_RECENT_CLIENTS
      && clientIps as object != lastResponseTimes as object
      && nextIndex == Slot(MAX_RECENT_CLIENTS, |cache.log|)
      && Represents(Slots(), cache.log)
      && (forall i :: |cache.log| <= i < MAX_RECENT_CLIENTS ==>
            clientIps[i] == 0 && lastResponseTimes[i] == if i == |cache.log| then cache.spare else 0)
      && DistinctClients(cache.log) && ZeroMeansUnused(cache.log)
    }

    constructor ()
      ensures Valid() && cache == EMPTY_CACHE && fresh(clientIps) && fresh(lastResponseTimes)
    {
      clientIps := new nat[MAX_RECENT_CLIENTS](_ => 0);
      lastResponseTimes := new int[MAX_RECENT_CLIENTS](_ => 0);
      nextIndex := 0;
      cache := EMPTY_CACHE;
    }

    /** The slot of a cached client is the slot of its entry. */
    lemma {:induction false} SlotOfClient(ip: nat, i: nat)
      requires Valid() && !UsesSpare(cache, ip) && i < MAX_RECENT_CLIENTS && clientIps[i] == ip
      ensures FindBelow(cache.log, ip, |cache.log|).Some?
      ensures i == Slot(MAX_RECENT_CLIENTS, FindBelow(cache.log, ip, |cache.log|).value)
    {
      hide Slot, FindBelow;
      var k := Owner(MAX_RECENT_CLIENTS, |cache.log|, i);
      assert Slots()[i] == cache.log[k];
      assert InCache(cache.log, k);
      var found := FindBelow(cache.log, ip, |cache.log|);
      if found.Some? {
        assert InCache(cache.log, found.value);
      }
    }

    lemma {:induction false} ClientHasSlot(ip: nat)
      requires Valid()
      ensures var found := FindBelow(cache.log, ip, |cache.log|);
              found.Some? ==> clientIps[Slot(MAX_RECENT_CLIENTS, found.value)] == ip
                              && lastResponseTimes[Slot(MAX_RECENT_CLIENTS, found.value)] == cache.log[found.value].at
    {
      hide Slot, FindBelow;
      var found := FindBelow(cache.log, ip, |cache.log|);
      if found.Some? {
        assert Slots()[Slot(MAX_RECENT_CLIENTS, found.value)] == cache.log[found.value];
      }
    }

    /** While slots are unused, the address zero is found in the first of them. */
    lemma {:induction false} SpareSlot(i: nat)
      requires Valid() && UsesSpare(cache, 0) && i < MAX_RECENT_CLIENTS
      requires clientIps[i] == 0 && forall k :: 0 <= k < i ==> clientIps[k] != 0
      ensures i == |cache.log| && lastResponseTimes[i] == cache.spare
    {
      hide Slot;
      assert clientIps[|cache.log|] == 0;
      forall j: nat | j < |cache.log|
        ensures clientIps[j] != 0
      {
        var k := Owner(MAX_RECENT_CLIENTS, |cache.log|, j);
        assert Slots()[j] == cache.log[k];
      }
    }

    /** `is_client_in_cooldown`: the arrays answer as the cache that they stand for. */
    method IsClientInCooldown(clientIp: nat, now: int) returns (cooling: bool)
      requires Valid()
      modifies this`nextIndex, this`cache, clientIps, lastResponseTimes
      ensures Valid()
      ensures cooling <==> !Answers(old(cache), clientIp, now)
      ensures cache == After(old(cache), clientIp, now)
    {
      hide Slot, Next, Represents, DistinctClients, FindBelow, ZeroMeansUnused;
      var clientIndex := -1;
      assert UsesSpare(cache, clientIp) ==> clientIps[|cache.log|] == clientIp;
      for i := 0 to MAX_RECENT_CLIENTS
        invariant forall k :: 0 <= k < i ==> clientIps[k] != clientIp
        invariant clientIndex == -1
      {
        if clientIps[i] == clientIp {
          clientIndex := i;
          break;
        }
      }
      if clientIndex == -1 {
        ClientHasSlot(clientIp);
        Insert(clientIp, now);
        return false;
      }
      if UsesSpare(cache, clientIp) {
        SpareSlot(clientIndex);
      } else {
        ClientHasSlot(clientIp);
        SlotOfClient(clientIp, clientIndex);
      }
      if now - lastResponseTimes[clientIndex] < RESPONSE_COOLDOWN_SECONDS {
        return true;
      }
      Refresh(clientIp, clientIndex, now);
      return false;
    }

    /** Lines 186-194 for a new client. */
    method Insert(clientIp: nat, now: int)
      requires Valid() && !UsesSpare(cache, clientIp) && FindBelow(cache.log, clientIp, |cache.log|).None?
      modifies this`nextIndex, this`cache, clientIps, lastResponseTimes
      ensures Valid()
      ensures cache == Cache(old(cache.log) + [Client(clientIp, now)], 0)
    {
      hide Represents, DistinctClients, FindBelow;
      RequestKeepsDistinct(cache.log, clientIp, now);
      ghost var (slots, log) := (Slots(), cache.log);
      clientIps[nextIndex] := clientIp;
      lastResponseTimes[nextIndex] := now;
      nextIndex := (nextIndex + 1) % MAX_RECENT_CLIENTS;
      cache := Cache(cache.log + [Client(clientIp, now)], 0);
      Append(slots, log, Client(clientIp, now));
      assert Slots() == slots[Slot(MAX_RECENT_CLIENTS, |log|) := Client(clientIp, now)];
      if |log| < MAX_RECENT_CLIENTS {
        FirstRound(MAX_RECENT_CLIENTS, |log|);
      }
    }

    /** Line 194 for a client that was found. */
    method Refresh(clientIp: nat, clientIndex: nat, now: int)
      requires Valid() && Answers(cache, clientIp, now)
      requires clientIndex < MAX_RECENT_CLIENTS && clientIps[clientIndex] == clientIp
      requires UsesSpare(cache, clientIp) ==> clientIndex == |cache.log|
      requires !UsesSpare(cache, clientIp) ==>
                 && FindBelow(cache.log, clientIp, |cache.log|).Some?
                 && clientIndex == Slot(MAX_RECENT_CLIENTS, FindBelow(cache.log, clientIp, |cache.log|).value)
      modifies this`cache, lastResponseTimes
      ensures Valid()
      ensures cache == After(old(cache), clientIp, now)
    {
      hide Represents, DistinctClients, FindBelow, Slot;
      ghost var (slots, log) := (Slots(), cache.log);
      lastResponseTimes[clientIndex] := now;
      if UsesSpare(cache, clientIp) {
        cache := cache.(spare := now);
        WriteUnused(slots, Slots(), log);
      } else {
        ghost var k := FindBelow(log, clientIp, |log|).value;
        RequestKeepsDistinct(log, clientIp, now);
        cache := cache.(log := log[k := Client(clientIp, now)]);
        Update(slots, log, k, Client(clientIp, now));
        assert Slots() == slots[clientIndex := Client(clientIp, now)];
        if |log| < MAX_RECENT_CLIENTS {
          FirstRound(MAX_RECENT_CLIENTS, k);
        }
      }
    }
  }

  /** A write to an unused slot does not show in the log. */
  lemma {:induction false} WriteUnused(slots: seq<Client>, after: seq<Client>, log: seq<Client>)
    requires Represents(slots, log) && |after| == |slots| == MAX_RECENT_CLIENTS && |log| < MAX_RECENT_CLIENTS
    requires forall i :: 0 <= i < |log| ==> after[i] == slots[i]
    ensures Represents(after, log)
  {
    hide Slot;
    forall k: nat | k < |log|
      ensures Slot(MAX_RECENT_CLIENTS, k) == k
    {
      FirstRound(MAX_RECENT_CLIENTS, k);
    }
  }

  // ---- One probe ----

  /** `discovery_thread_func`, for a datagram that is a probe (lines 300-345): the filters are asked in
      turn, and a response is sent only when both let the probe pass and the configuration is there.
      The two clock readings are those of the filters. */
  method HandleProbe(messages: RecentMessages, cooldown: ClientCooldown, messageId: Option<string>, clientIp: nat,
                     messageNow: int, clientNow: int, configured: bool)
    returns (sent: bool)
    requires messages.Valid() && cooldown.Valid()
    requires cooldown.lastResponseTimes != messages.timestamps  // the two static structs
    modifies messages, messages.messageIds, messages.timestamps
    modifies cooldown, cooldown.clientIps, cooldown.lastResponseTimes
    ensures messages.Valid() && cooldown.Valid()
    ensures var unseen := messageId.Some? && !Refused(old(messages.accepted), messageId.value, messageNow);
            && messages.accepted == old(messages.accepted) + (if unseen then [Message(messageId.value, messageNow)] else [])
            && cooldown.cache == (if unseen then After(old(cooldown.cache), clientIp, clientNow) else old(cooldown.cache))
            && (sent <==> unseen && Answers(old(cooldown.cache), clientIp, clientNow) && configured)
  {
    hide Represents, Refused, Accepted, DistinctClients, Slot, Answers, After, ZeroMeansUnused;
    if messageId.None? {
      return false;
    }
    var duplicate := messages.IsDuplicateMessage(messageId, messageNow);
    if duplicate {
      return false;
    }
    var cooling := cooldown.IsClientInCooldown(clientIp, clientNow);
    return !cooling && configured;
  }

  // ---- Runs of client requests ----

  /** A request that reaches the client cache. */
  datatype Request = Request(ip: nat, at: int)

  ghost predicate InOrder(rs: seq<Request>) {
    forall i, j :: 0 <= i < j < |rs| ==> rs[i].at <= rs[j].at
  }

  /** The cache after the requests `rs`. */
  function Run(rs: seq<Request>): Cache {
    if rs == [] then EMPTY_CACHE else After(Run(rs[..|rs| - 1]), rs[|rs| - 1].ip, rs[|rs| - 1].at)
  }

  /** Request `j` is answered. */
  predicate AnsweredIn(rs: seq<Request>, j: nat)
    requires j < |rs|
  {
    Answers(Run(rs[..j]), rs[j].ip, rs[j].at)
  }

  function Ips(rs: seq<Request>): set<nat> {
    if rs == [] then {} else Ips(rs[..|rs| - 1]) + {rs[|rs| - 1].ip}
  }

  function LoggedIps(log: seq<Client>): set<nat> {
    if log == [] then {} else LoggedIps(log[..|log| - 1]) + {log[|log| - 1].ip}
  }

  lemma {:induction false} LoggedIpsExact(log: seq<Client>)
    ensures forall ip :: ip in LoggedIps(log) <==> exists k :: 0 <= k < |log| && log[k].ip == ip
  {
    if log != [] {
      var init := log[..|log| - 1];
      LoggedIpsExact(init);
      forall ip | exists k :: 0 <= k < |log| && log[k].ip == ip
        ensures ip in LoggedIps(log)
      {
        var k :| 0 <= k < |log| && log[k].ip == ip;
        if k < |init| {
          assert init[k].ip == ip;
        }
      }
    }
  }

  lemma {:induction false} SubsetSize(a: set<nat>, b: set<nat>)
    requires a <= b
    ensures |a| <= |b|
  {
    assert b == a + (b - a);
  }

  lemma {:induction false} PrefixIps(rs: seq<Request>, j: nat)
    requires j <= |rs|
    ensures Ips(rs[..j]) <= Ips(rs) && |Ips(rs[..j])| <= |Ips(rs)|
  {
    if j < |rs| {
      assert rs[..|rs| - 1][..j] == rs[..j];
      PrefixIps(rs[..|rs| - 1], j);
    } else {
      assert rs[..j] == rs;
    }
    SubsetSize(Ips(rs[..j]), Ips(rs));
  }

  /** All clients of a log that nothing was evicted from are different. */
  ghost predicate Unique(log: seq<Client>) {
    forall i, j :: 0 <= i < |log| && 0 <= j < |log| && i != j ==> log[i].ip != log[j].ip
  }

  /** A log without repetitions has as many entries as clients. */
  lemma {:induction false} CountLogged(log: seq<Client>)
    requires Unique(log)
    ensures |LoggedIps(log)| == |log|
  {
    if log != [] {
      CountLogged(log[..|log| - 1]);
      LoggedIpsExact(log[..|log| - 1]);
    }
  }

  /** A request adds its client to a log that has room for all clients. */
  lemma {:induction false} RequestLogs(log: seq<Client>, r: Request)
    requires Unique(log) && |log| <= MAX_RECENT_CLIENTS
    ensures var next := AfterRequest(log, r.ip, r.at);
            Unique(next) && LoggedIps(next) <= LoggedIps(log) + {r.ip}
  {
    var next := AfterRequest(log, r.ip, r.at);
    LoggedIpsExact(log);
    LoggedIpsExact(next);
    hide LoggedIps;
    var found := FindBelow(log, r.ip, |log|);
    forall ip | ip in LoggedIps(next)
      ensures ip in LoggedIps(log) + {r.ip}
    {
      var k :| 0 <= k < |next| && next[k].ip == ip;
      if k < |log| {
        assert log[k].ip == ip;
      }
    }
  }

  /** With few clients nothing is evicted: every client has one entry. */
  lemma {:induction false} FewClientsFit(rs: seq<Request>)
    requires |Ips(rs)| <= MAX_RECENT_CLIENTS
    ensures |Run(rs).log| <= MAX_RECENT_CLIENTS
    ensures Unique(Run(rs).log) && LoggedIps(Run(rs).log) <= Ips(rs)
  {
    if rs != [] {
      PrefixIps(rs, |rs| - 1);
      FewClientsFit(rs[..|rs| - 1]);
      hide AfterRequest, Unique, LoggedIps;
      RequestLogs(Run(rs[..|rs| - 1]).log, rs[|rs| - 1]);
      CountLogged(Run(rs).log);
      SubsetSize(LoggedIps(Run(rs).log), Ips(rs));
    }
  }

  lemma {:induction false} RunStep(rs: seq<Request>, j: nat)
    requires j < |rs|
    ensures Run(rs[..j + 1]) == After(Run(rs[..j]), rs[j].ip, rs[j].at)
  {
    assert rs[..j + 1][..j] == rs[..j];
  }

  // ---- The cooldown ----

  /** Entry `k` is the last one of its client. */
  ghost predicate LastEntry(log: seq<Client>, k: nat, ip: nat) {
    k < |log| && log[k].ip == ip && forall m :: k < m < |log| ==> log[m].ip != ip
  }

  /** A client inside its cooldown is answered exactly when 20 others were inserted after it. */
  lemma {:induction false} EarlyAnswerExactly(log: seq<Client>, k: nat, ip: nat, now: int)
    requires LastEntry(log, k, ip) && now - log[k].at < RESPONSE_COOLDOWN_SECONDS
    ensures Answered(log, ip, now) <==> |log| - k > 20
  {
    hide FindBelow;
    var found := FindBelow(log, ip, |log|);
    assert found.Some? ==> found.value == k;
  }

  lemma {:induction false} AnsweredIsLast(c: Cache, r: Request) returns (k: nat)
    requires r.ip != 0 && Answers(c, r.ip, r.at)
    ensures LastEntry(After(c, r.ip, r.at).log, k, r.ip) && After(c, r.ip, r.at).log[k].at == r.at
  {
    hide FindBelow;
    var found := FindBelow(c.log, r.ip, |c.log|);
    k := if found.Some? then found.value else |c.log|;
  }

  /** Another request leaves the client a last entry that is not older. */
  lemma {:induction false} LastEntryStays(c: Cache, r: Request, ip: nat, k: nat) returns (n: nat)
    requires LastEntry(c.log, k, ip) && c.log[k].at <= r.at
    ensures LastEntry(After(c, r.ip, r.at).log, n, ip) && c.log[k].at <= After(c, r.ip, r.at).log[n].at <= r.at
  {
    hide FindBelow;
    var log := After(c, r.ip, r.at).log;
    n := if r.ip == ip && |log| > |c.log| then |c.log| else k;
  }

  /** An answered client keeps a last entry that is at least as recent. */
  lemma {:induction false} AnsweredIsRemembered(rs: seq<Request>, i: nat, j: nat) returns (k: nat)
    requires InOrder(rs) && i < j <= |rs| && AnsweredIn(rs, i) && rs[i].ip != 0
    ensures LastEntry(Run(rs[..j]).log, k, rs[i].ip)
    ensures rs[i].at <= Run(rs[..j]).log[k].at <= rs[j - 1].at
    decreases j
  {
    hide Run, Answers, After, LastEntry;
    RunStep(rs, j - 1);
    if j - 1 == i {
      k := AnsweredIsLast(Run(rs[..i]), rs[i]);
    } else {
      var before := AnsweredIsRemembered(rs, i, j - 1);
      k := LastEntryStays(Run(rs[..j - 1]), rs[j - 1], rs[i].ip, before);
    }
  }

  /** In every run, a client with an address that asks again too early is answered exactly when it has
      been evicted: its last entry lies in front of the last 20. */
  lemma {:induction false} EarlyAnswerMeansEvicted(rs: seq<Request>, i: nat, j: nat) returns (k: nat)
    requires InOrder(rs) && i < j < |rs| && rs[i].ip == rs[j].ip != 0 && AnsweredIn(rs, i)
    requires rs[j].at - rs[i].at < RESPONSE_COOLDOWN_SECONDS
    ensures LastEntry(Run(rs[..j]).log, k, rs[j].ip)
    ensures AnsweredIn(rs, j) <==> |Run(rs[..j]).log| - k > MAX_RECENT_CLIENTS
  {
    hide Run, Answered, LastEntry;
    k := AnsweredIsRemembered(rs, i, j);
    EarlyAnswerExactly(Run(rs[..j]).log, k, rs[j].ip, rs[j].at);
  }

  /** In any run with at most 20 clients, two responses to the same client are at least the cooldown
      apart. */
  lemma {:induction false} CooldownHolds(rs: seq<Request>, i: nat, j: nat)
    requires InOrder(rs) && |Ips(rs)| <= MAX_RECENT_CLIENTS
    requires i < j < |rs| && rs[i].ip == rs[j].ip != 0 && AnsweredIn(rs, i) && AnsweredIn(rs, j)
    ensures rs[j].at - rs[i].at >= RESPONSE_COOLDOWN_SECONDS
  {
    hide Run, Answers;
    PrefixIps(rs, j);
    FewClientsFit(rs[..j]);
    if rs[j].at - rs[i].at < RESPONSE_COOLDOWN_SECONDS {
      var k := EarlyAnswerMeansEvicted(rs, i, j);
    }
  }

  /** A run in order, with at most `n` different addresses, that answers this address twice. */
  ghost predicate AnswersTwice(rs: seq<Request>, i: int, j: int, ip: nat, n: nat) {
    && InOrder(rs) && |Ips(rs)| <= n && 0 <= i < j < |rs| && rs[i].ip == rs[j].ip == ip
    && AnsweredIn(rs, i) && AnsweredIn(rs, j)
  }

  /** Every time in the cache is that of one of the first `j` requests, which was answered. */
  ghost predicate FromAnswers(rs: seq<Request>, c: Cache, j: nat)
    requires j <= |rs|
  {
    && (forall k :: 0 <= k < |c.log| ==>
          exists i :: 0 <= i < j && rs[i] == Request(c.log[k].ip, c.log[k].at) && AnsweredIn(rs, i))
    && (c.spare == 0 || exists i :: 0 <= i < j && rs[i] == Request(0, c.spare) && AnsweredIn(rs, i))
  }

  lemma {:induction false} TimesFromAnswers(rs: seq<Request>, c: Cache, j: nat)
    requires j <= |rs| && c == Run(rs[..j])
    ensures FromAnswers(rs, c, j)
    decreases j
  {
    hide Run, Answers, After;
    if j == 0 {
      EmptyRun(rs);
    } else {
      var before := Run(rs[..j - 1]);
      TimesFromAnswers(rs, before, j - 1);
      RunStep(rs, j - 1);
      StepTimes(before, rs[j - 1]);
      forall k | 0 <= k < |c.log|
        ensures exists i :: 0 <= i < j && rs[i] == Request(c.log[k].ip, c.log[k].at) && AnsweredIn(rs, i)
      {
        if k < |before.log| && c.log[k] == before.log[k] {
          var i :| 0 <= i < j - 1 && rs[i] == Request(before.log[k].ip, before.log[k].at) && AnsweredIn(rs, i);
        } else {
          assert rs[j - 1] == Request(c.log[k].ip, c.log[k].at) && AnsweredIn(rs, j - 1);
        }
      }
      if c.spare != 0 && c.spare == before.spare {
        var i :| 0 <= i < j - 1 && rs[i] == Request(0, before.spare) && AnsweredIn(rs, i);
      } else if c.spare != 0 {
        assert rs[j - 1] == Request(0, c.spare) && AnsweredIn(rs, j - 1);
      }
    }
  }

  lemma {:induction false} EmptyRun(rs: seq<Request>)
    ensures Run(rs[..0]) == EMPTY_CACHE
  {
  }

  /** One request leaves old times, or puts its own in when it is answered. */
  lemma {:induction false} StepTimes(c: Cache, r: Request)
    ensures var next := After(c, r.ip, r.at);
            && (forall k :: 0 <= k < |next.log| ==>
                  || (k < |c.log| && next.log[k] == c.log[k])
                  || (next.log[k] == Client(r.ip, r.at) && Answers(c, r.ip, r.at)))
            && (next.spare == c.spare || next.spare == 0 || (next.spare == r.at && r.ip == 0 && Answers(c, r.ip, r.at)))
  {
    hide FindBelow;
  }

  /** In every run, a request that is not answered came less than a second after an answered one of the
      same client, or it came from the address zero in the first second. */
  lemma {:induction false} SilenceHasReason(rs: seq<Request>, j: nat)
    requires j < |rs| && !AnsweredIn(rs, j)
    ensures (exists i :: 0 <= i < j && rs[i].ip == rs[j].ip && AnsweredIn(rs, i) && rs[j].at - rs[i].at < 1)
            || (rs[j].ip == 0 && rs[j].at < 1)
  {
    hide Run, FindBelow;
    var c := Run(rs[..j]);
    TimesFromAnswers(rs, c, j);
    var found := FindBelow(c.log, rs[j].ip, |c.log|);
    assert !UsesSpare(c, rs[j].ip) ==> found.Some? && rs[j].at - c.log[found.value].at < 1;
  }

  /** With at most 20 clients, a client with an address is answered exactly when its last answer is not
      less than a second ago. */
  lemma {:induction false} AnsweredExactly(rs: seq<Request>, j: nat)
    requires InOrder(rs) && |Ips(rs)| <= 20 && j < |rs| && rs[j].ip != 0
    ensures AnsweredIn(rs, j) <==>
              forall i :: 0 <= i < j && rs[i].ip == rs[j].ip && AnsweredIn(rs, i) ==> rs[j].at - rs[i].at >= 1
  {
    hide Run, Answers, Ips;
    if AnsweredIn(rs, j) {
      forall i | 0 <= i < j && rs[i].ip == rs[j].ip && AnsweredIn(rs, i)
        ensures rs[j].at - rs[i].at >= 1
      {
        CooldownHolds(rs, i, j);
      }
    } else {
      SilenceHasReason(rs, j);
    }
  }

  /** All in-order runs with at most `n` different addresses keep the distance for the given address. */
  ghost predicate DistanceKept(ip: nat, n: nat) {
    forall rs: seq<Request>, i, j ::
      AnswersTwice(rs, i, j, ip, n) ==> rs[j].at - rs[i].at >= 1
  }

  /** `n` clients at time zero, with consecutive addresses. */
  function Crowd(first: nat, n: nat): seq<Request> {
    if n == 0 then [] else Crowd(first, n - 1) + [Request(first + n - 1, 0)]
  }

  lemma {:induction false} CrowdShape(first: nat, n: nat)
    ensures |Crowd(first, n)| == n && forall i :: 0 <= i < n ==> Crowd(first, n)[i] == Request(first + i, 0)
    ensures n > 0 ==> Crowd(first, n)[..n - 1] == Crowd(first, n - 1)
  {
    if n > 0 {
      CrowdShape(first, n - 1);
    }
  }

  lemma {:induction false} CrowdFills(first: nat, n: nat)
    requires first > 0
    ensures |Run(Crowd(first, n)).log| == n
    ensures forall i :: 0 <= i < n ==> Run(Crowd(first, n)).log[i] == Client(first + i, 0)
  {
    hide After, Crowd;
    CrowdShape(first, n);
    if n > 0 {
      CrowdFills(first, n - 1);
      NewcomerInserted(Run(Crowd(first, n - 1)), Request(first + n - 1, 0));
    }
  }

  lemma {:induction false} CrowdIps(first: nat, n: nat)
    ensures forall ip :: ip in Ips(Crowd(first, n)) <==> first <= ip < first + n
    ensures |Ips(Crowd(first, n))| == n
  {
    hide Crowd;
    CrowdShape(first, n);
    if n > 0 {
      CrowdIps(first, n - 1);
      assert Ips(Crowd(first, n)) == Ips(Crowd(first, n - 1)) + {first + n - 1};
    }
  }

  lemma {:induction false} NewcomerInserted(c: Cache, r: Request)
    requires r.ip != 0 && forall i :: 0 <= i < |c.log| ==> c.log[i].ip != r.ip
    ensures After(c, r.ip, r.at).log == c.log + [Client(r.ip, r.at)]
  {
    hide FindBelow;
  }

  /** A cached client is found at its last entry. */
  lemma {:induction false} FoundLast(log: seq<Client>, k: nat, ip: nat)
    requires LastEntry(log, k, ip) && InCache(log, k)
    ensures FindBelow(log, ip, |log|) == Some(k)
  {
    hide FindBelow;
    var found := FindBelow(log, ip, |log|);
    assert found.Some?;
  }

  /** 20 clients at time zero, and at time one the first of them, a newcomer, and the first again: all are
      answered. */
  function Forgetful(ip: nat): seq<Request> {
    Crowd(ip, MAX_RECENT_CLIENTS) + [Request(ip, 1), Request(ip + MAX_RECENT_CLIENTS, 1), Request(ip, 1)]
  }

  lemma {:induction false} OldestClientForgotten(ip: nat)
    requires ip > 0
    ensures var (rs, n) := (Forgetful(ip), MAX_RECENT_CLIENTS);
            && |rs| == n + 3 && InOrder(rs) && |Ips(rs)| == n + 1
            && rs[n] == rs[n + 2] == Request(ip, 1) && AnsweredIn(rs, n) && AnsweredIn(rs, n + 2)
  {
    var (rs, n) := (Forgetful(ip), MAX_RECENT_CLIENTS);
    CrowdShape(ip, n);
    CrowdFills(ip, n);
    hide Run, After, Answers, FindBelow, Crowd, Ips;
    assert rs[..n] == Crowd(ip, n);
    RunStep(rs, n);
    RunStep(rs, n + 1);
    ForgetfulSteps(Run(rs[..n]).log, ip);
    ForgetfulIps(ip);
  }

  lemma {:induction false} IpsStep(rs: seq<Request>, j: nat)
    requires j < |rs|
    ensures Ips(rs[..j + 1]) == Ips(rs[..j]) + {rs[j].ip}
  {
    assert rs[..j + 1][..j] == rs[..j];
  }

  lemma {:induction false} ForgetfulIps(ip: nat)
    requires ip > 0
    ensures |Ips(Forgetful(ip))| == MAX_RECENT_CLIENTS + 1
  {
    var (crowd, n) := (Crowd(ip, MAX_RECENT_CLIENTS), MAX_RECENT_CLIENTS);
    CrowdShape(ip, n);
    CrowdIps(ip, n);
    hide Crowd, Run, Ips;
    var rs := Forgetful(ip);
    assert rs[..n] == crowd && rs[..n + 3] == rs;
    IpsStep(rs, n);
    IpsStep(rs, n + 1);
    IpsStep(rs, n + 2);
    assert Ips(rs) == Ips(crowd) + {ip + n};
  }

  /** The three requests, on the cache of the crowd. */
  lemma {:induction false} ForgetfulSteps(log: seq<Client>, ip: nat)
    requires ip > 0 && |log| == MAX_RECENT_CLIENTS
    requires forall i :: 0 <= i < |log| ==> log[i] == Client(ip + i, 0)
    ensures var n := MAX_RECENT_CLIENTS;
            forall spare ::
              var first := After(Cache(log, spare), ip, 1);
              var second := After(first, ip + n, 1);
              Answers(Cache(log, spare), ip, 1) && Answers(second, ip, 1)
  {
    var n := MAX_RECENT_CLIENTS;
    hide FindBelow;
    FoundLast(log, 0, ip);
    var first := log[0 := Client(ip, 1)];
    NewcomerInserted(Cache(first, 0), Request(ip + n, 1));
    var second := first + [Client(ip + n, 1)];
    assert forall k :: 0 < k < n + 1 ==> second[k].ip == ip + k;
  }

  /** For a client with an address, the distance is kept over all runs exactly up to 20 clients. */
  lemma {:induction false} CooldownExactly(ip: nat, n: nat)
    requires ip != 0
    ensures DistanceKept(ip, n) <==> n <= 20
  {
    hide Run, Answers, Ips;
    if n <= MAX_RECENT_CLIENTS {
      forall rs: seq<Request>, i, j | AnswersTwice(rs, i, j, ip, n)
        ensures rs[j].at - rs[i].at >= RESPONSE_COOLDOWN_SECONDS
      {
        CooldownHolds(rs, i, j);
      }
    } else {
      OldestClientForgotten(ip);
      assert AnswersTwice(Forgetful(ip), MAX_RECENT_CLIENTS, MAX_RECENT_CLIENTS + 2, ip, n);
    }
  }

  // ---- The address zero ----

  /** A run of the address zero alone uses the first slot only. */
  lemma {:induction false} OnlyZero(rs: seq<Request>, j: nat)
    requires j <= |rs| && forall i :: 0 <= i < |rs| ==> rs[i].ip == 0
    ensures Run(rs[..j]).log == []
  {
    if j > 0 {
      OnlyZero(rs, j - 1);
      RunStep(rs, j - 1);
    }
  }

  lemma {:induction false} ZeroRemembered(rs: seq<Request>, i: nat, j: nat)
    requires InOrder(rs) && i < j <= |rs| && AnsweredIn(rs, i) && forall i :: 0 <= i < |rs| ==> rs[i].ip == 0
    ensures Run(rs[..j]).spare >= rs[i].at
    decreases j
  {
    hide Run, AfterRequest, Answered;
    OnlyZero(rs, j - 1);
    RunStep(rs, j - 1);
    if i < j - 1 {
      ZeroRemembered(rs, i, j - 1);
    }
  }

  lemma {:induction false} IpsHolds(rs: seq<Request>, i: nat)
    requires i < |rs|
    ensures rs[i].ip in Ips(rs)
  {
    if i < |rs| - 1 {
      IpsHolds(rs[..|rs| - 1], i);
    }
  }

  lemma {:induction false} Alone(rs: seq<Request>, i: nat)
    requires i < |rs| && |Ips(rs)| <= 1
    ensures forall k :: 0 <= k < |rs| ==> rs[k].ip == rs[i].ip
  {
    hide Ips;
    IpsHolds(rs, i);
    forall k | 0 <= k < |rs|
      ensures rs[k].ip == rs[i].ip
    {
      IpsHolds(rs, k);
      SubsetSize({rs[i].ip, rs[k].ip}, Ips(rs));
    }
  }

  /** The address zero keeps its distance only as long as no other client comes: the next client takes the
      slot that remembers it. */
  lemma {:induction false} ZeroAddressExactly(n: nat)
    ensures DistanceKept(0, n) <==> n <= 1
  {
    if n <= 1 {
      hide Run, Ips;
      forall rs: seq<Request>, i, j | AnswersTwice(rs, i, j, 0, n)
        ensures rs[j].at - rs[i].at >= RESPONSE_COOLDOWN_SECONDS
      {
        Alone(rs, i);
        OnlyZero(rs, j);
        ZeroRemembered(rs, i, j);
      }
    } else {
      ZeroForgotten();
      assert AnswersTwice([Request(0, 1), Request(1, 1), Request(0, 1)], 0, 2, 0, n);
    }
  }

  lemma {:induction false} ZeroForgotten()
    ensures var rs := [Request(0, 1), Request(1, 1), Request(0, 1)];
            InOrder(rs) && |Ips(rs)| == 2 && AnsweredIn(rs, 0) && AnsweredIn(rs, 2)
  {
    var rs := [Request(0, 1), Request(1, 1), Request(0, 1)];
    RunStep(rs, 0);
    RunStep(rs, 1);
    assert rs[..0] == [] && rs[..3] == rs;
    IpsStep(rs, 0);
    IpsStep(rs, 1);
    IpsStep(rs, 2);
    assert Ips(rs) == {0, 1};
  }
}
