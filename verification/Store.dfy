// The key-value part of RaftStore (store.go): a Go map on the heap, mutated in place by Apply,
// copied by Snapshot and replaced by Restore.
module Stores {
  import opened Options
  import opened Commands

  // A Go map is a reference: two holders of it see each other's writes.
  class GoMap {
    var entries: Table

    constructor ()
      ensures entries == map[]
    {
      entries := map[];
    }
  }

  method CloneMap(m: GoMap) returns (o: GoMap)
    ensures fresh(o) && o.entries == m.entries
  {
    o := new GoMap();
    var todo := m.entries.Keys;
    while todo != {}
      invariant todo <= m.entries.Keys
      invariant fresh(o)
      invariant forall k :: k in o.entries <==> k in m.entries && k !in todo
      invariant forall k :: k in o.entries ==> o.entries[k] == m.entries[k]
      decreases |todo|
    {
      var k :| k in todo;
      todo := todo - {k};
      o.entries := o.entries[k := m.entries[k]];
    }
  }

  const MILLISECOND := 1_000_000

  // What ParseTime reads back from FormatTime(time.Now()): the text is the local wall time,
  // cut down to milliseconds and without its zone, and it is read as UTC. zone is the offset
  // of the proposing node from UTC.
  function Stamp(now: int, zone: int): (t: int)
    ensures t <= now + zone < t + MILLISECOND
  {
    (now + zone) / MILLISECOND * MILLISECOND
  }

  // The command RaftStore.Set proposes at time now.
  function SetCommand(key: string, value: string, now: int, zone: int): Command {
    Command("set", key, value, Some(Stamp(now, zone)))
  }

  // The key-value part of the Go type RaftStore.
  class KeyValueStore {
    var m: GoMap
    const intercept: Interceptor

    constructor (intercept: Interceptor)
      ensures fresh(m) && m.entries == map[] && this.intercept == intercept
    {
      this.intercept := intercept;
      m := new GoMap();
    }

    method Get(key: string) returns (v: string, ok: bool)
      ensures ok <==> key in m.entries
      ensures v == if ok then m.entries[key] else ""
    {
      ok := key in m.entries;
      v := if ok then m.entries[key] else "";
    }

    method Apply(index: nat, c: Command, now: int)
      modifies m
      ensures m.entries == ApplyCommand(c, intercept(index, c), Timely(c, now), old(m.entries))
      ensures intercept(index, c) || (c.op != "set" && c.op != "delete") ==> m.entries == old(m.entries)
      ensures c.op == "set" &&
              (c.key == "/raft/cluster" || c.time == None || c.time.value < now - 100_000_000_000) ==>
                m.entries == old(m.entries)
      ensures !intercept(index, c) && c.op == "set" && c.key != "/raft/cluster" &&
              c.time != None && c.time.value >= now - 100_000_000_000 ==>
                m.entries == old(m.entries)[c.key := c.value]
      ensures !intercept(index, c) && c.op == "delete" ==> m.entries == old(m.entries) - {c.key}
    {
      if intercept(index, c) {
        return;
      }
      match c.op {
        case "set" =>
          if c.time.None? || c.time.value < now - WINDOW {
            return;
          }
          if c.key == CLUSTER_KEY {
            return;
          }
          m.entries := m.entries[c.key := c.value];
        case "delete" =>
          m.entries := m.entries - {c.key};
        case _ =>
      }
    }

    method Snapshot() returns (snap: GoMap)
      ensures fresh(snap) && snap.entries == m.entries
    {
      snap := CloneMap(m);
    }

    // decoded is the table read from the snapshot stream, None when decoding fails.
    method Restore(decoded: Option<Table>) returns (ok: bool)
      modifies this
      ensures ok <==> decoded.Some?
      ensures ok ==> fresh(m) && m.entries == decoded.value
      ensures !ok ==> m == old(m)
    {
      if decoded.None? {
        return false;
      }
      var o := new GoMap();
      o.entries := decoded.value;
      m := o;
      return true;
    }
  }

  // Snapshot isolation: the snapshot is persisted while later entries are applied; what is
  // written, and what another store restores from it, is the table at the snapshot.
  method PersistWhileApplying(s: KeyValueStore, other: KeyValueStore, first: nat, cs: seq<Command>, clock: seq<int>)
    returns (written: Table)
    requires |cs| == |clock| && s != other && s.m != other.m
    modifies s.m, other
    ensures written == old(s.m.entries) && other.m.entries == written
    ensures s.m == old(s.m) && s.m != other.m
    ensures s.m.entries == ApplyAll(s.intercept, first, cs, clock, old(s.m.entries))
  {
    var snap := s.Snapshot();
    for i := 0 to |cs|
      invariant s.m == old(s.m) && fresh(snap) && snap != s.m
      invariant snap.entries == old(s.m.entries)
      invariant s.m.entries == ApplyAll(s.intercept, first, cs[..i], clock[..i], old(s.m.entries))
    {
      s.Apply(first + i, cs[i], clock[i]);
      assert cs[..i + 1][..i] == cs[..i] && clock[..i + 1][..i] == clock[..i];
    }
    assert cs[..|cs|] == cs && clock[..|clock|] == clock;
    written := snap.entries;
    var ok := other.Restore(Some(written));
  }

  ghost function ApplyAll(ic: Interceptor, first: nat, cs: seq<Command>, clock: seq<int>, m: Table): Table
    requires |cs| == |clock|
  {
    if cs == [] then m
    else
      var n := |cs| - 1;
      ApplyCommand(cs[n], ic(first + n, cs[n]), Timely(cs[n], clock[n]), ApplyAll(ic, first, cs[..n], clock[..n], m))
  }

  // A set that is let through and found timely stores its value under its key.
  lemma {:induction false} SetCommandSets(key: string, value: string, issued: int, zone: int, now: int, m: Table)
    requires key != "/raft/cluster"
    requires Timely(SetCommand(key, value, issued, zone), now)
    ensures ApplyCommand(SetCommand(key, value, issued, zone), false, true, m) == m[key := value]
  {
  }

  // A zone moves the window of a set by exactly its offset: the set is found timely at a clock
  // just when, issued in UTC, it would be found timely that much earlier.
  lemma {:induction false} ZoneShiftsWindow(key: string, value: string, issued: int, zone: int, now: int)
    requires zone % MILLISECOND == 0
    ensures Timely(SetCommand(key, value, issued, zone), now) <==>
            Timely(SetCommand(key, value, issued, 0), now - zone)
  {
    assert issued + zone == issued + zone / MILLISECOND * MILLISECOND;
  }

  // When a set takes effect: up to 100 seconds plus the zone offset after it was issued, less
  // what its time stamp lost below the millisecond.
  lemma {:induction false} SetIsTimelyIff(key: string, value: string, issued: int, zone: int, now: int)
    ensures var lost := issued + zone - Stamp(issued, zone);
            && 0 <= lost < MILLISECOND
            && (Timely(SetCommand(key, value, issued, zone), now) <==>
                now - issued <= 100_000_000_000 + zone - lost)
  {
  }

  // More than 100 seconds west of UTC, every set is refused as soon as it is issued and for
  // ever after; closer than that, every set takes effect at once.
  lemma {:induction false} RefusedAtOnceIffWest(zone: int)
    requires zone % MILLISECOND == 0
    ensures (forall key, value, issued, now | now >= issued ::
               !Timely(SetCommand(key, value, issued, zone), now)) <==> zone < -WINDOW
    ensures (forall key, value, issued ::
               Timely(SetCommand(key, value, issued, zone), issued)) <==> zone > -WINDOW
  {
    assert !Timely(SetCommand("", "", 0, zone), 0) <==> zone < -WINDOW;
    var last := MILLISECOND - 1;
    assert Stamp(last, zone) == zone;
    assert Timely(SetCommand("", "", last, zone), last) <==> zone >= last - WINDOW;
    assert zone >= last - WINDOW <==> zone > -WINDOW by { assert WINDOW % MILLISECOND == 0; }
  }
}
