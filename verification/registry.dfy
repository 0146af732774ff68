/**
 The registry of sessions and streams (rtpmanager.cpp): one array of entries, each naming a
 session object by its address; a stream's entry names the session it belongs to.
 */
module Registry {
  import opened Outcomes
  import opened Machine

  const KNullId: u32 := 0

  datatype Kind = ESession | EStream

  /** TArrayStore */
  datatype Entry = Entry(id: u32, address: nat, kind: Kind)

  /** The manager's id counter and array, and the addresses of the session objects that exist. */
  datatype State = State(count: u32, entries: seq<Entry>, live: set<nat>)

  /** CArrayFixFlat::Find: the first entry with the id, or the length. */
  function Find(entries: seq<Entry>, id: u32): (i: nat)
    ensures i <= |entries|
    ensures i < |entries| ==> entries[i].id == id
    ensures forall j | 0 <= j < i :: entries[j].id != id
  {
    if entries == [] || entries[0].id == id then 0 else 1 + Find(entries[1..], id)
  }

  function Without(entries: seq<Entry>, i: nat): seq<Entry>
    requires i < |entries|
  {
    entries[..i] + entries[i + 1..]
  }

  /** The entries that are not streams of the session at the address. */
  function WithoutStreams(entries: seq<Entry>, address: nat): (r: seq<Entry>)
    ensures |r| <= |entries|
  {
    if entries == [] then []
    else
      var last := entries[|entries| - 1];
      WithoutStreams(entries[..|entries| - 1], address)
      + if last.kind == EStream && last.address == address then [] else [last]
  }

  /** The entries that name another session. */
  function Elsewhere(entries: seq<Entry>, address: nat): seq<Entry> {
    if entries == [] then []
    else
      var last := entries[|entries| - 1];
      Elsewhere(entries[..|entries| - 1], address) + if last.address == address then [] else [last]
  }

  /** RemoveRtpObject: the code deletes at the index found before the loop. */
  function Removed(s: State, id: u32, kind: Kind): Result<State> {
    var i := Find(s.entries, id);
    if i == |s.entries| then Leave(NotFound)
    else if kind == EStream then Ok(s.(entries := Without(s.entries, i)))
    else
      var address := s.entries[i].address;
      var rest := WithoutStreams(s.entries, address);
      if i < |rest| then Ok(s.(entries := Without(rest, i), live := s.live - {address})) else Leave(Panic)
  }

  datatype Op =
    | CreateSession(address: nat, room: bool)
    | CreateStream(session: u32, created: bool, room: bool)
    | AddStream(session: u32, room: bool)
    | CloseStream(id: u32)
    | CloseSession(id: u32)
    | CloseAll

  /** A new object gets an address no existing one has; addresses of deleted ones come back. */
  predicate Possible(s: State, op: Op) { op.CreateSession? ==> op.address !in s.live }

  /** The state after a call; Leave(Panic) when the thread is stopped. */
  function Apply(s: State, op: Op): Result<State>
    requires Possible(s, op)
  {
    match op
    case CreateSession(address, room) =>
      var t := s.(count := ToU32(s.count + 1));
      Ok(if room then t.(entries := t.entries + [Entry(t.count, address, ESession)], live := t.live + {address}) else t)
    case CreateStream(session, created, room) =>
      var i := Find(s.entries, session);
      if i == |s.entries| then Ok(s)
      else
        var t := s.(count := ToU32(s.count + 1));
        Ok(if created && room then t.(entries := t.entries + [Entry(t.count, t.entries[i].address, EStream)]) else t)
    case AddStream(session, room) =>
      var i := Find(s.entries, session);
      var t := s.(count := ToU32(s.count + 1));
      Ok(if i < |s.entries| && room then t.(entries := t.entries + [Entry(t.count, t.entries[i].address, EStream)]) else t)
    case CloseStream(id) =>
      var r := Removed(s, id, EStream);
      if r == Leave(NotFound) then Ok(s) else r
    case CloseSession(id) =>
      var r := Removed(s, id, ESession);
      if r == Leave(NotFound) then Ok(s) else r
    case CloseAll =>
      Ok(s.(entries := [], live := s.live - Addresses(s.entries, |s.entries|)))
  }

  /** The addresses of the sessions among the first n entries. */
  function Addresses(entries: seq<Entry>, n: nat): set<nat>
    requires n <= |entries|
  {
    set i | 0 <= i < n && entries[i].kind == ESession :: entries[i].address
  }

  class RtpManager {
    var iNumOfObjects: u32
    var iSessionArray: seq<Entry>
    var live: set<nat>

    function AsState(): State
      reads this
    {
      State(iNumOfObjects, iSessionArray, live)
    }

    constructor ()
      ensures AsState() == State(0, [], {})
    {
      iNumOfObjects, iSessionArray, live := 0, [], {};
    }

    method AssignUniqueID() returns (id: u32)
      modifies this`iNumOfObjects
      ensures id == iNumOfObjects == ToU32(old(iNumOfObjects) + 1)
    {
      iNumOfObjects := ToU32(iNumOfObjects + 1);
      id := iNumOfObjects;
    }

    /** room is false when the array cannot grow. */
    method AddRtpObject(entry: Entry, room: bool) returns (ok: bool)
      modifies this`iSessionArray
      ensures ok == room
      ensures iSessionArray == if room then old(iSessionArray) + [entry] else old(iSessionArray)
    {
      if room {
        iSessionArray := iSessionArray + [entry];
      }
      ok := room;
    }

    method GetSession(id: u32) returns (session: Option<nat>)
      ensures var i := Find(iSessionArray, id);
              session == if i < |iSessionArray| then Some(iSessionArray[i].address) else None
    {
      var i := Find(iSessionArray, id);
      session := if i < |iSessionArray| then Some(iSessionArray[i].address) else None;
    }

    /** CreateSessionL; the new session object is at the given address. */
    method CreateSessionL(address: nat, room: bool) returns (id: u32)
      requires Possible(AsState(), CreateSession(address, room))
      modifies this
      ensures Ok(AsState()) == Apply(old(AsState()), CreateSession(address, room))
      ensures id == if room then iNumOfObjects else KNullId
    {
      id := AssignUniqueID();
      live := live + {address};
      var ok := AddRtpObject(Entry(id, address, ESession), room);
      if !ok {
        live := live - {address};
        id := KNullId;
      }
    }

    /** CreateStreamL; created is false when the session fails to make the stream. */
    method CreateStreamL(session: u32, created: bool, room: bool) returns (id: u32)
      modifies this
      ensures Ok(AsState()) == Apply(old(AsState()), CreateStream(session, created, room))
      ensures id == if Find(old(iSessionArray), session) < |old(iSessionArray)| && created && room then iNumOfObjects else KNullId
    {
      var address := GetSession(session);
      if address.None? {
        return KNullId;
      }
      id := AssignUniqueID();
      if !created {
        return KNullId;
      }
      var ok := AddRtpObject(Entry(id, address.value, EStream), room);
      if !ok {
        id := KNullId;
      }
    }

    /** AddStreamToSession as a session calls it, with the id it has just had assigned. */
    method AddStreamToSession(session: u32, room: bool) returns (r: Result<()>)
      modifies this
      ensures Ok(AsState()) == Apply(old(AsState()), AddStream(session, room))
      ensures r == if Find(old(iSessionArray), session) == |old(iSessionArray)| then Leave(NotFound)
                   else if room then Ok(()) else Leave(Argument)
    {
      var id := AssignUniqueID();
      var address := GetSession(session);
      if address.None? {
        return Leave(NotFound);
      }
      var ok := AddRtpObject(Entry(id, address.value, EStream), room);
      return if ok then Ok(()) else Leave(Argument);
    }

    /** The deletion loop of RemoveRtpObject, stepping back after each deletion. */
    method DeleteStreams(address: nat)
      modifies this`iSessionArray
      ensures iSessionArray == WithoutStreams(old(iSessionArray), address)
    {
      var totalObjects := |iSessionArray|;
      var k := 0;
      ghost var all, passed := iSessionArray, 0;
      while k < totalObjects
        invariant 0 <= k <= totalObjects == |iSessionArray| && passed <= |all|
        invariant iSessionArray[..k] == WithoutStreams(all[..passed], address)
        invariant iSessionArray[k..] == all[passed..]
        decreases totalObjects - k
      {
        assert all[..passed + 1][..passed] == all[..passed];
        assert iSessionArray[k] == all[passed];
        if iSessionArray[k].kind == EStream && iSessionArray[k].address == address {
          assert Without(iSessionArray, k)[k..] == iSessionArray[k..][1..];
          iSessionArray := Without(iSessionArray, k);
          totalObjects := |iSessionArray|;
          k := k - 1;
        } else {
          assert iSessionArray[..k + 1] == iSessionArray[..k] + [iSessionArray[k]];
          assert iSessionArray[k + 1..] == iSessionArray[k..][1..];
        }
        passed := passed + 1;
        k := k + 1;
      }
      assert iSessionArray[..k] == iSessionArray && all[..passed] == all;
    }

    method RemoveRtpObject(id: u32, kind: Kind) returns (r: Result<()>)
      modifies this
      ensures r.Ok? <==> Removed(old(AsState()), id, kind).Ok?
      ensures r.Ok? ==> Ok(AsState()) == Removed(old(AsState()), id, kind)
      ensures r.Leave? ==> r.error == Removed(old(AsState()), id, kind).error
      ensures r == Leave(NotFound) ==> AsState() == old(AsState())
    {
      hide Find, WithoutStreams;
      var theIndex := Find(iSessionArray, id);
      if theIndex == |iSessionArray| {
        return Leave(NotFound);
      }
      if kind == ESession {
        var address := iSessionArray[theIndex].address;
        DeleteStreams(address);
        live := live - {address};
      }
      if theIndex >= |iSessionArray| {
        return Leave(Panic);
      }
      iSessionArray := Without(iSessionArray, theIndex);
      return Ok(());
    }

    method CloseStreamL(id: u32) returns (r: Result<()>)
      modifies this
      ensures r.Ok? ==> Ok(AsState()) == Apply(old(AsState()), CloseStream(id))
      ensures r.Leave? <==> Apply(old(AsState()), CloseStream(id)).Leave?
    {
      hide Find, WithoutStreams;
      var session := GetSession(id);
      if session.None? {
        return Ok(());
      }
      r := RemoveRtpObject(id, EStream);
    }

    method CloseSessionL(id: u32) returns (r: Result<()>)
      modifies this
      ensures r.Ok? ==> Ok(AsState()) == Apply(old(AsState()), CloseSession(id))
      ensures r.Leave? <==> Apply(old(AsState()), CloseSession(id)).Leave?
    {
      hide Find, WithoutStreams;
      r := RemoveRtpObject(id, ESession);
      if r == Leave(NotFound) {
        r := Ok(());
      }
    }

    method RemoveRtpAllObjects()
      modifies this
      ensures Ok(AsState()) == Apply(old(AsState()), CloseAll)
    {
      var totalObjects := |iSessionArray|;
      for index := 0 to totalObjects
        invariant iSessionArray == old(iSessionArray) && iNumOfObjects == old(iNumOfObjects)
        invariant live == old(live) - Addresses(iSessionArray, index)
      {
        if iSessionArray[index].kind == ESession {
          live := live - {iSessionArray[index].address};
        }
      }
      iSessionArray := [];
    }
  }

  // ----- The ordering invariant -----

  predicate Ids(s: State) {
    && (forall i | 0 <= i < |s.entries| :: 0 < s.entries[i].id <= s.count)
    && (forall i, j | 0 <= i < j < |s.entries| :: s.entries[i].id != s.entries[j].id)
  }

  /** The entry at i is the session's own. */
  predicate Owns(entries: seq<Entry>, i: nat, address: nat) {
    i < |entries| && entries[i].kind == ESession && entries[i].address == address
  }

  predicate Sessions(s: State) {
    && (forall i, j | 0 <= i < j < |s.entries| && s.entries[i].kind == ESession && s.entries[j].kind == ESession ::
          s.entries[i].address != s.entries[j].address)
    && (forall a | a in s.live :: exists i :: 0 <= i < |s.entries| && Owns(s.entries, i, a))
    && (forall i | 0 <= i < |s.entries| :: s.entries[i].address in s.live)
  }

  /** Each stream comes after its session. */
  predicate Ordered(entries: seq<Entry>) {
    forall j | 0 <= j < |entries| && entries[j].kind == EStream ::
      exists i :: 0 <= i < j && Owns(entries, i, entries[j].address)
  }

  /** Ids are distinct, every existing session has exactly one entry, every stream's entry comes
      after its session's, and no entry names a session that no longer exists. */
  predicate Registered(s: State) { Ids(s) && Sessions(s) && Ordered(s.entries) }

  /** The next id is no entry's and not the null id exactly if the counter has not reached its end. */
  lemma NextIdIsFresh(s: State)
    requires Registered(s)
    ensures var id := ToU32(s.count + 1);
            (id != KNullId && forall e | e in s.entries :: e.id != id) <==> s.count < 0xFFFF_FFFF
  {
    hide Sessions, Ordered;
    forall e | e in s.entries ensures 0 < e.id <= s.count {
    }
  }

  /** Looking up an entry's id finds that entry. */
  lemma FindsTheEntry(s: State, i: nat)
    requires Registered(s) && i < |s.entries|
    ensures Find(s.entries, s.entries[i].id) == i
  {
    hide Find, Sessions, Ordered;
    var k := Find(s.entries, s.entries[i].id);
    assert k <= i;
  }

  // ----- Filtering keeps order -----

  lemma {:induction false} WithoutStreamsConcat(a: seq<Entry>, b: seq<Entry>, address: nat)
    ensures WithoutStreams(a + b, address) == WithoutStreams(a, address) + WithoutStreams(b, address)
  {
    if b == [] {
      assert a + b == a;
    } else {
      assert (a + b)[..|a + b| - 1] == a + b[..|b| - 1];
      WithoutStreamsConcat(a, b[..|b| - 1], address);
    }
  }

  lemma {:induction false} ElsewhereConcat(a: seq<Entry>, b: seq<Entry>, address: nat)
    ensures Elsewhere(a + b, address) == Elsewhere(a, address) + Elsewhere(b, address)
  {
    if b == [] {
      assert a + b == a;
    } else {
      assert (a + b)[..|a + b| - 1] == a + b[..|b| - 1];
      ElsewhereConcat(a, b[..|b| - 1], address);
    }
  }

  lemma {:induction false} NothingToRemove(entries: seq<Entry>, address: nat)
    requires forall i | 0 <= i < |entries| :: entries[i].address != address
    ensures WithoutStreams(entries, address) == entries == Elsewhere(entries, address)
  {
    if entries != [] {
      NothingToRemove(entries[..|entries| - 1], address);
    }
  }

  lemma {:induction false} OnlyStreams(entries: seq<Entry>, address: nat)
    requires forall i | 0 <= i < |entries| :: entries[i].address == address ==> entries[i].kind == EStream
    ensures WithoutStreams(entries, address) == Elsewhere(entries, address)
  {
    if entries != [] {
      OnlyStreams(entries[..|entries| - 1], address);
    }
  }

  lemma {:induction false} InElsewhere(entries: seq<Entry>, address: nat, e: Entry)
    ensures e in Elsewhere(entries, address) <==> e in entries && e.address != address
  {
    if entries != [] {
      InElsewhere(entries[..|entries| - 1], address, e);
      assert entries == entries[..|entries| - 1] + [entries[|entries| - 1]];
    }
  }

  /** Before a session's entry there is nothing with its address. */
  lemma NothingBefore(s: State, i: nat)
    requires Registered(s) && i < |s.entries| && s.entries[i].kind == ESession
    ensures forall j | 0 <= j < i :: s.entries[j].address != s.entries[i].address
  {
    forall j | 0 <= j < i ensures s.entries[j].address != s.entries[i].address {
      if s.entries[j].kind == EStream {
        var k :| 0 <= k < j && Owns(s.entries, k, s.entries[j].address);
      }
    }
  }

  /**
   Deleting a session: the index found before the loop is still right after it, and what is left
   is exactly what belongs to other sessions.
   */
  lemma IndexStillRight(s: State, i: nat)
    requires Registered(s) && i < |s.entries| && s.entries[i].kind == ESession
    ensures var address := s.entries[i].address;
            var rest := WithoutStreams(s.entries, address);
            && i < |rest| && rest[i] == s.entries[i]
            && Without(rest, i) == Elsewhere(s.entries, address)
  {
    hide Registered, Owns, WithoutStreams, Elsewhere;
    var before, own, after := s.entries[..i], [s.entries[i]], s.entries[i + 1..];
    var address := s.entries[i].address;
    NothingBefore(s, i);
    OneSession(s, i);
    NothingToRemove(before, address);
    OnlyStreams(after, address);
    assert s.entries == before + (own + after);
    WithoutStreamsConcat(before, own + after, address);
    WithoutStreamsConcat(own, after, address);
    ElsewhereConcat(before, own + after, address);
    ElsewhereConcat(own, after, address);
    OwnEntry(s.entries[i]);
  }

  lemma OwnEntry(e: Entry)
    requires e.kind == ESession
    ensures WithoutStreams([e], e.address) == [e] && Elsewhere([e], e.address) == []
  {
    assert [e][..0] == [];
  }

  lemma OneSession(s: State, i: nat)
    requires Registered(s) && i < |s.entries| && s.entries[i].kind == ESession
    ensures forall j | i < j < |s.entries| :: s.entries[j].address == s.entries[i].address ==> s.entries[j].kind == EStream
  {
  }

  // ----- Each call keeps the registry -----

  /** The id names an entry of the kind the call is for, or none. */
  predicate RightKind(s: State, op: Op) {
    match op
    case CloseStream(id) => var i := Find(s.entries, id); i < |s.entries| ==> s.entries[i].kind == EStream
    case CloseSession(id) => var i := Find(s.entries, id); i < |s.entries| ==> s.entries[i].kind == ESession
    case _ => true
  }

  lemma {:induction false} ElsewhereKeepsOrder(entries: seq<Entry>, address: nat)
    requires Ordered(entries)
    ensures Ordered(Elsewhere(entries, address))
  {
    if entries != [] {
      var before, last := entries[..|entries| - 1], entries[|entries| - 1];
      OrderedPrefix(entries);
      ElsewhereKeepsOrder(before, address);
      if last.address != address && last.kind == EStream {
        var i :| 0 <= i < |before| && Owns(entries, i, last.address);
        assert before[i] in before;
        InElsewhere(before, address, before[i]);
        var rest := Elsewhere(before, address);
        var k :| 0 <= k < |rest| && rest[k] == before[i];
        assert Owns(rest, k, last.address);
        OrderedAppend(rest, last, k);
      } else if last.address != address {
        OrderedAppend(Elsewhere(before, address), last, 0);
      } else {
        assert Elsewhere(entries, address) == Elsewhere(before, address);
      }
    }
  }

  lemma OrderedPrefix(entries: seq<Entry>)
    requires Ordered(entries) && entries != []
    ensures Ordered(entries[..|entries| - 1])
  {
    var before := entries[..|entries| - 1];
    forall j | 0 <= j < |before| && before[j].kind == EStream
      ensures exists i :: 0 <= i < j && Owns(before, i, before[j].address)
    {
      var i :| 0 <= i < j && Owns(entries, i, entries[j].address);
      assert Owns(before, i, before[j].address);
    }
  }

  lemma OrderedAppend(entries: seq<Entry>, e: Entry, owner: nat)
    requires Ordered(entries)
    requires e.kind == EStream ==> Owns(entries, owner, e.address)
    ensures Ordered(entries + [e])
  {
    var all := entries + [e];
    forall j | 0 <= j < |all| && all[j].kind == EStream
      ensures exists i :: 0 <= i < j && Owns(all, i, all[j].address)
    {
      if j < |entries| {
        var i :| 0 <= i < j && Owns(entries, i, entries[j].address);
        assert Owns(all, i, all[j].address);
      } else {
        assert Owns(all, owner, all[j].address);
      }
    }
  }

  /** Distinct ids and one entry per session, said of entries instead of positions. */
  lemma {:induction false} ElsewhereKeepsDistinct(entries: seq<Entry>, address: nat)
    requires forall i, j | 0 <= i < j < |entries| :: entries[i].id != entries[j].id
    requires forall i, j | 0 <= i < j < |entries| && entries[i].kind == ESession && entries[j].kind == ESession ::
               entries[i].address != entries[j].address
    ensures var rest := Elsewhere(entries, address);
            && (forall i, j | 0 <= i < j < |rest| :: rest[i].id != rest[j].id)
            && (forall i, j | 0 <= i < j < |rest| && rest[i].kind == ESession && rest[j].kind == ESession ::
                  rest[i].address != rest[j].address)
  {
    if entries != [] {
      var before, last := entries[..|entries| - 1], entries[|entries| - 1];
      ElsewhereKeepsDistinct(before, address);
      var rest := Elsewhere(before, address);
      forall k | 0 <= k < |rest| ensures rest[k] in before {
        InElsewhere(before, address, rest[k]);
      }
    }
  }

  lemma ElsewhereKeepsSessions(s: State, address: nat)
    requires Sessions(s) && Ids(s)
    ensures Sessions(s.(entries := Elsewhere(s.entries, address), live := s.live - {address}))
  {
    var rest := Elsewhere(s.entries, address);
    ElsewhereKeepsDistinct(s.entries, address);
    hide Elsewhere, Ids;
    forall k | 0 <= k < |rest| ensures rest[k] in s.entries && rest[k].address != address {
      InElsewhere(s.entries, address, rest[k]);
    }
    forall a | a in s.live - {address} ensures exists k :: 0 <= k < |rest| && Owns(rest, k, a) {
      var i :| 0 <= i < |s.entries| && Owns(s.entries, i, a);
      InElsewhere(s.entries, address, s.entries[i]);
      var k :| 0 <= k < |rest| && rest[k] == s.entries[i];
      assert Owns(rest, k, a);
    }
  }

  lemma ElsewhereIsRegistered(s: State, address: nat)
    requires Registered(s)
    ensures Registered(s.(entries := Elsewhere(s.entries, address), live := s.live - {address}))
  {
    hide Ordered, Elsewhere;
    ElsewhereKeepsOrder(s.entries, address);
    ElsewhereKeepsSessions(s, address);
    ElsewhereKeepsDistinct(s.entries, address);
    hide Sessions;
    var rest := Elsewhere(s.entries, address);
    forall k | 0 <= k < |rest| ensures rest[k] in s.entries {
      InElsewhere(s.entries, address, rest[k]);
    }
  }

  /** CloseSession with a session's id removes that session, its streams, and nothing else. */
  lemma ClosesExactly(s: State, id: u32)
    requires Registered(s) && RightKind(s, CloseSession(id)) && Find(s.entries, id) < |s.entries|
    ensures var address := s.entries[Find(s.entries, id)].address;
            var r := Apply(s, CloseSession(id));
            && r.Ok? && r.value.live == s.live - {address} && r.value.count == s.count
            && (forall e :: e in r.value.entries <==> e in s.entries && e.address != address)
            && r.value.entries == Elsewhere(s.entries, address) && Registered(r.value)
  {
    hide Registered, Elsewhere, WithoutStreams, Without, Find;
    var i := Find(s.entries, id);
    IndexStillRight(s, i);
    ElsewhereIsRegistered(s, s.entries[i].address);
    forall e ensures e in Elsewhere(s.entries, s.entries[i].address) <==> e in s.entries && e.address != s.entries[i].address {
      InElsewhere(s.entries, s.entries[i].address, e);
    }
  }

  /** CloseStream with a stream's id removes that stream's entry and nothing else. */
  lemma ClosesStreamExactly(s: State, id: u32)
    requires Registered(s) && RightKind(s, CloseStream(id)) && Find(s.entries, id) < |s.entries|
    ensures var r := Apply(s, CloseStream(id));
            && r.Ok? && r.value.live == s.live && r.value.count == s.count
            && |r.value.entries| == |s.entries| - 1
            && forall e :: e in r.value.entries <==> e in s.entries && e.id != id
  {
    hide Find, Without, Sessions, Ordered;
    var i := Find(s.entries, id);
    var rest := Without(s.entries, i);
    WithoutAt(s.entries, i);
    forall e | e in s.entries && e.id != id ensures e in rest {
      var j :| 0 <= j < |s.entries| && s.entries[j] == e;
      assert rest[if j < i then j else j - 1] == e;
    }
    forall e | e in rest ensures e in s.entries && e.id != id {
      var k :| 0 <= k < |rest| && rest[k] == e;
      assert e == s.entries[if k < i then k else k + 1];
    }
  }

  /** Closing an id nobody has does nothing; closing all leaves no entry and no session. */
  lemma ClosesNothingOrAll(s: State, id: u32)
    requires Registered(s)
    ensures (forall e | e in s.entries :: e.id != id) ==>
              Apply(s, CloseStream(id)) == Ok(s) && Apply(s, CloseSession(id)) == Ok(s)
    ensures Apply(s, CloseAll) == Ok(State(s.count, [], {}))
  {
    hide Find, Registered, Addresses;
    ClosingAll(s);
    if forall e | e in s.entries :: e.id != id {
      NobodyHas(s.entries, id);
    }
  }

  lemma NobodyHas(entries: seq<Entry>, id: u32)
    requires forall e | e in entries :: e.id != id
    ensures Find(entries, id) == |entries|
  {
    hide Find;
    if Find(entries, id) < |entries| {
      assert false;
    }
  }

  /** A new session gets the next id and an entry of its own at the end, or, if there is no room, neither entry
      nor object stays. */
  lemma CreatesSessionExactly(s: State, address: nat, room: bool)
    requires Registered(s) && s.count < 0xFFFF_FFFF && address !in s.live
    ensures var r := Apply(s, CreateSession(address, room));
            && r.Ok? && r.value.count == s.count + 1
            && |r.value.entries| == |s.entries| + (if room then 1 else 0)
            && r.value.entries[..|s.entries|] == s.entries
            && (if room then r.value.entries[|s.entries|] == Entry(s.count + 1, address, ESession)
                             && r.value.live == s.live + {address}
                else r.value.live == s.live)
  {
  }

  /** A new stream gets an entry at the end exactly if some entry has the id given for the session, and the session
      makes the stream, and there is room; the entry names the session that entry names.  Ids: CreateStream uses up
      one only if the session is found, AddStream always. */
  lemma AddsStreamExactly(s: State, session: u32, owner: nat, created: bool, room: bool)
    requires Registered(s) && s.count < 0xFFFF_FFFF
    requires owner <= |s.entries|
    requires if owner < |s.entries| then s.entries[owner].id == session else forall e | e in s.entries :: e.id != session
    ensures var found, n := owner < |s.entries|, |s.entries|;
            var r, t := Apply(s, CreateStream(session, created, room)), Apply(s, AddStream(session, room));
            && r.Ok? && t.Ok? && r.value.live == s.live && t.value.live == s.live
            && r.value.count == (if found then s.count + 1 else s.count) && t.value.count == s.count + 1
            && |r.value.entries| == n + (if found && created && room then 1 else 0)
            && |t.value.entries| == n + (if found && room then 1 else 0)
            && r.value.entries[..n] == s.entries && t.value.entries[..n] == s.entries
            && (found && created && room ==> r.value.entries[n] == Entry(s.count + 1, s.entries[owner].address, EStream))
            && (found && room ==> t.value.entries[n] == Entry(s.count + 1, s.entries[owner].address, EStream))
  {
    hide Find, Sessions, Ordered;
    if owner < |s.entries| {
      FindsTheEntry(s, owner);
    } else {
      NobodyHas(s.entries, session);
    }
  }

  lemma WithoutAt(entries: seq<Entry>, i: nat)
    requires i < |entries|
    ensures var rest := Without(entries, i);
            |rest| == |entries| - 1 && forall k | 0 <= k < |rest| :: rest[k] == entries[if k < i then k else k + 1]
  {
  }

  /** Every owner but the removed entry is still there, in the same order. */
  lemma OwnerStays(entries: seq<Entry>, i: nat, k: nat, address: nat)
    requires i < |entries| && entries[i].kind == EStream && Owns(entries, k, address)
    ensures k != i && Owns(Without(entries, i), if k < i then k else k - 1, address)
  {
  }

  lemma RemovingKeepsOrder(entries: seq<Entry>, i: nat)
    requires Ordered(entries) && i < |entries| && entries[i].kind == EStream
    ensures Ordered(Without(entries, i))
  {
    hide Without, Owns;
    var rest := Without(entries, i);
    WithoutAt(entries, i);
    forall j | 0 <= j < |rest| && rest[j].kind == EStream
      ensures exists k :: 0 <= k < j && Owns(rest, k, rest[j].address)
    {
      var j' := if j < i then j else j + 1;
      assert rest[j] == entries[j'];
      var k :| 0 <= k < j' && Owns(entries, k, entries[j'].address);
      OwnerStays(entries, i, k, rest[j].address);
    }
  }

  lemma RemovingKeepsSessions(s: State, i: nat)
    requires Sessions(s) && i < |s.entries| && s.entries[i].kind == EStream
    ensures Sessions(s.(entries := Without(s.entries, i)))
  {
    hide Without, Owns;
    var rest := Without(s.entries, i);
    WithoutAt(s.entries, i);
    forall a | a in s.live ensures exists k :: 0 <= k < |rest| && Owns(rest, k, a) {
      var k :| 0 <= k < |s.entries| && Owns(s.entries, k, a);
      OwnerStays(s.entries, i, k, a);
    }
  }

  lemma RemovingStream(s: State, i: nat)
    requires Registered(s) && i < |s.entries| && s.entries[i].kind == EStream
    ensures Registered(s.(entries := Without(s.entries, i)))
  {
    hide Ordered, Sessions, Without;
    WithoutAt(s.entries, i);
    RemovingKeepsOrder(s.entries, i);
    RemovingKeepsSessions(s, i);
  }

  /** Removing a session's entry alone leaves a session object without an entry. */
  lemma RemovingOnlyTheSession(s: State, i: nat)
    requires Registered(s) && i < |s.entries| && s.entries[i].kind == ESession
    ensures !Registered(s.(entries := Without(s.entries, i)))
  {
    var all, rest, address := s.entries, Without(s.entries, i), s.entries[i].address;
    assert forall k | 0 <= k < |rest| :: rest[k] == all[if k < i then k else k + 1];
    forall k | 0 <= k < |rest| ensures !Owns(rest, k, address) {
    }
  }

  /** The loop of RemoveRtpObject leaves the session's own entry where it is. */
  lemma OwnEntryStays(s: State, j: nat)
    requires Registered(s) && j < |s.entries| && s.entries[j].kind == ESession
    ensures var rest := WithoutStreams(s.entries, s.entries[j].address); j < |rest| && rest[j] == s.entries[j]
  {
    hide Registered, WithoutStreams, Elsewhere;
    IndexStillRight(s, j);
  }

  /** A stream's id given to CloseSession deletes the session object but never its entry: a
      dangling address stays behind, or the deletion runs off the end of the array. */
  lemma ClosingThroughStream(s: State, i: nat)
    requires Registered(s) && i < |s.entries| && s.entries[i].kind == EStream
    ensures var address := s.entries[i].address;
            var rest := WithoutStreams(s.entries, address);
            i < |rest| ==> !Registered(s.(entries := Without(rest, i), live := s.live - {address}))
  {
    hide WithoutStreams, Ids, Without;
    var address := s.entries[i].address;
    var rest := WithoutStreams(s.entries, address);
    var j :| 0 <= j < i && Owns(s.entries, j, address);
    OwnEntryStays(s, j);
    if i < |rest| {
      WithoutAt(rest, i);
      DanglingEntry(s.(entries := Without(rest, i), live := s.live - {address}), j);
    }
  }

  lemma DanglingEntry(s: State, j: nat)
    requires j < |s.entries| && s.entries[j].address !in s.live
    ensures !Registered(s)
  {
  }

  lemma AddingSession(s: State, address: nat)
    requires Registered(s) && s.count < 0xFFFF_FFFF && address !in s.live
    ensures Registered(State(s.count + 1, s.entries + [Entry(s.count + 1, address, ESession)], s.live + {address}))
  {
    var all, e := s.entries, Entry(s.count + 1, address, ESession);
    OrderedAppend(all, e, 0);
    assert Owns(all + [e], |all|, address);
    forall a | a in s.live ensures exists k :: 0 <= k < |all + [e]| && Owns(all + [e], k, a) {
      var k :| 0 <= k < |all| && Owns(all, k, a);
      assert Owns(all + [e], k, a);
    }
  }

  /** The entry found may be a session's or a stream's: either way its session has an entry before. */
  lemma AddingStream(s: State, i: nat)
    requires Registered(s) && s.count < 0xFFFF_FFFF && i < |s.entries|
    ensures Registered(State(s.count + 1, s.entries + [Entry(s.count + 1, s.entries[i].address, EStream)], s.live))
  {
    hide Ids, Sessions, Ordered;
    var owner := OwnerOf(s, i);
    var e := Entry(s.count + 1, s.entries[i].address, EStream);
    NextIds(s, e);
    StreamKeepsSessions(s, e, i);
    OrderedAppend(s.entries, e, owner);
  }

  lemma OwnerOf(s: State, i: nat) returns (owner: nat)
    requires Sessions(s) && i < |s.entries|
    ensures Owns(s.entries, owner, s.entries[i].address)
  {
    var k :| 0 <= k < |s.entries| && Owns(s.entries, k, s.entries[i].address);
    owner := k;
  }

  lemma NextIds(s: State, e: Entry)
    requires Ids(s) && s.count < 0xFFFF_FFFF && e.id == s.count + 1
    ensures Ids(State(s.count + 1, s.entries + [e], s.live))
  {
  }

  lemma StreamKeepsSessions(s: State, e: Entry, i: nat)
    requires Sessions(s) && i < |s.entries| && e.kind == EStream && e.address == s.entries[i].address
    ensures forall count :: Sessions(State(count, s.entries + [e], s.live))
  {
    var all := s.entries;
    forall a | a in s.live ensures exists k :: 0 <= k < |all + [e]| && Owns(all + [e], k, a) {
      var k :| 0 <= k < |all| && Owns(all, k, a);
      assert Owns(all + [e], k, a);
    }
  }

  lemma CountingOn(s: State)
    requires Registered(s) && s.count < 0xFFFF_FFFF
    ensures Registered(s.(count := s.count + 1))
  {
  }

  lemma ClosingAll(s: State)
    requires Registered(s)
    ensures s.live - Addresses(s.entries, |s.entries|) == {}
    ensures Registered(State(s.count, [], {}))
  {
    forall a | a in s.live ensures a in Addresses(s.entries, |s.entries|) {
      var i :| 0 <= i < |s.entries| && Owns(s.entries, i, a);
    }
  }

  /**
   With ids left to assign, a call keeps the registry in order and does not stop the thread exactly
   if a close call is given the id of its own kind: the code looks entries up by id alone.
   */
  lemma KeepsRegistered(s: State, op: Op)
    requires Registered(s) && Possible(s, op) && s.count < 0xFFFF_FFFF
    ensures var r := Apply(s, op); (r.Ok? && Registered(r.value)) <==> RightKind(s, op)
  {
    hide Registered, Elsewhere, WithoutStreams, Without, Find, Addresses;
    CountingOn(s);
    match op
    case CreateSession(address, _) => AddingSession(s, address);
    case CreateStream(session, _, _) =>
      if Find(s.entries, session) < |s.entries| {
        AddingStream(s, Find(s.entries, session));
      }
    case AddStream(session, _) =>
      if Find(s.entries, session) < |s.entries| {
        AddingStream(s, Find(s.entries, session));
      }
    case CloseStream(id) => KeepsAtCloseStream(s, id);
    case CloseSession(id) => KeepsAtCloseSession(s, id);
    case CloseAll => ClosingAll(s);
  }

  lemma KeepsAtCloseStream(s: State, id: u32)
    requires Registered(s)
    ensures var r := Apply(s, CloseStream(id)); (r.Ok? && Registered(r.value)) <==> RightKind(s, CloseStream(id))
  {
    hide Registered, Without, Find;
    var i := Find(s.entries, id);
    if i < |s.entries| {
      if s.entries[i].kind == EStream {
        RemovingStream(s, i);
      } else {
        RemovingOnlyTheSession(s, i);
      }
    }
  }

  lemma KeepsAtCloseSession(s: State, id: u32)
    requires Registered(s)
    ensures var r := Apply(s, CloseSession(id)); (r.Ok? && Registered(r.value)) <==> RightKind(s, CloseSession(id))
  {
    hide Registered, Elsewhere, WithoutStreams, Without, Find;
    var i := Find(s.entries, id);
    if i < |s.entries| {
      if s.entries[i].kind == ESession {
        ClosesExactly(s, id);
      } else {
        ClosingThroughStream(s, i);
      }
    }
  }

  // ----- Runs -----

  /** Any sequence of calls; an impossible one, or one after the thread has stopped, does nothing. */
  function Run(ops: seq<Op>): Result<State> {
    if ops == [] then Ok(State(0, [], {}))
    else
      var r, op := Run(ops[..|ops| - 1]), ops[|ops| - 1];
      if r.Ok? && Possible(r.value, op) then Apply(r.value, op) else r
  }

  predicate RightKinds(ops: seq<Op>) {
    ops == [] ||
    var r := Run(ops[..|ops| - 1]);
    RightKinds(ops[..|ops| - 1]) && (r.Ok? ==> RightKind(r.value, ops[|ops| - 1]))
  }

  lemma CountGrowsByOne(s: State, op: Op)
    requires Possible(s, op) && s.count < 0xFFFF_FFFF
    ensures Apply(s, op).Ok? ==> Apply(s, op).value.count <= s.count + 1
  {
    hide Find, WithoutStreams, Without, Addresses;
  }

  /** No run of fewer than 2^32 calls, closing sessions as sessions and streams as streams, stops
      the thread, loses a session, or leaves an entry for a session that is gone. */
  lemma {:induction false} RunKeepsRegistered(ops: seq<Op>)
    requires RightKinds(ops) && |ops| < 0x1_0000_0000
    ensures Run(ops).Ok? && Registered(Run(ops).value) && Run(ops).value.count <= |ops|
  {
    hide Registered, Apply, RightKind;
    if ops == [] {
      EmptyIsRegistered();
    } else {
      RunKeepsRegistered(ops[..|ops| - 1]);
      var s, op := Run(ops[..|ops| - 1]).value, ops[|ops| - 1];
      if Possible(s, op) {
        KeepsRegistered(s, op);
        CountGrowsByOne(s, op);
      }
    }
  }

  lemma EmptyIsRegistered()
    ensures Registered(State(0, [], {}))
  {
  }

  /** Looking up an id therefore never gives a session that no longer exists. */
  lemma LookupIsLive(ops: seq<Op>, id: u32)
    requires RightKinds(ops) && |ops| < 0x1_0000_0000
    ensures Run(ops).Ok?
    ensures var s := Run(ops).value; var i := Find(s.entries, id); i < |s.entries| ==> s.entries[i].address in s.live
  {
    hide Find, Run, RightKinds;
    RunKeepsRegistered(ops);
  }

  lemma OneCallMore(ops: seq<Op>, op: Op)
    ensures var r := Run(ops); Run(ops + [op]) == if r.Ok? && Possible(r.value, op) then Apply(r.value, op) else r
  {
    hide Apply, Possible;
    assert (ops + [op])[..|ops|] == ops;
  }

  /** Closing a session's id as a stream: the session object lives on, and no entry leads to it. */
  lemma SessionClosedAsStream()
    ensures var r := Run([CreateSession(5, true), CloseStream(1)]);
            r == Ok(State(1, [], {5})) && !Registered(r.value)
  {
    hide Run;
    FirstCall();
    OneCallMore([CreateSession(5, true)], CloseStream(1));
    assert [CreateSession(5, true)] + [CloseStream(1)] == [CreateSession(5, true), CloseStream(1)];
    assert Without([Entry(1, 5, ESession)], 0) == [];
    assert 5 in {5};
  }

  lemma FirstCall()
    ensures Run([CreateSession(5, true)]) == Ok(State(1, [Entry(1, 5, ESession)], {5}))
  {
    OneCallMore([], CreateSession(5, true));
    assert [] + [CreateSession(5, true)] == [CreateSession(5, true)];
    assert Run([]) == Ok(State(0, [], {}));
    assert [] + [Entry(1, 5, ESession)] == [Entry(1, 5, ESession)] && {} + {5} == {5};
  }

  /** Closing a stream's id as a session: the loop takes the entry away, and the index found before is past the
      end. */
  lemma StreamClosedAsSession()
    ensures Run([CreateSession(5, true), CreateStream(1, true, true), CloseSession(2)]) == Leave(Panic)
  {
    hide Run;
    var calls, entries := [CreateSession(5, true), CreateStream(1, true, true)], [Entry(1, 5, ESession), Entry(2, 5, EStream)];
    FirstCall();
    OneCallMore([CreateSession(5, true)], CreateStream(1, true, true));
    assert [CreateSession(5, true)] + [CreateStream(1, true, true)] == calls;
    assert [Entry(1, 5, ESession)] + [Entry(2, 5, EStream)] == entries;
    assert Run(calls) == Ok(State(2, entries, {5}));
    OneCallMore(calls, CloseSession(2));
    assert calls + [CloseSession(2)] == [CreateSession(5, true), CreateStream(1, true, true), CloseSession(2)];
    assert Find(entries, 2) == 1;
    SessionKeptStreamGone();
  }

  lemma SessionKeptStreamGone()
    ensures WithoutStreams([Entry(1, 5, ESession), Entry(2, 5, EStream)], 5) == [Entry(1, 5, ESession)]
  {
    var entries := [Entry(1, 5, ESession), Entry(2, 5, EStream)];
    assert entries[..1] == [Entry(1, 5, ESession)] && entries[..1][..0] == [];
    assert WithoutStreams(entries[..1], 5) == entries[..1];
  }
}
