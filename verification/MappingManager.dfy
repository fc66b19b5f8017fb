/** The object that holds the mapping table. MappingProtocol says how its steps interleave;
    here each of its methods is one critical section. */
module MappingManagers {
  import opened Strings
  import opened MappingProtocol

  /** What the watcher's channels hand to the event loop. `read` is what a load of the mapping
      file at that moment would read, None when opening or reading fails. */
  datatype Delivery = Event(name: string, read: Option<string>) | WatcherError | ChannelClosed

  /** The loads the event loop makes: one per relevant event, up to a closed channel. */
  function Loads(base: string, deliveries: seq<Delivery>): seq<Option<string>> {
    if deliveries == [] || deliveries[0] == ChannelClosed then []
    else
      (if deliveries[0].Event? && Relevant(base, deliveries[0].name) then [deliveries[0].read] else [])
      + Loads(base, deliveries[1..])
  }

  predicate Loadable(parse: Parser, read: Option<string>) {
    read.Some? && parse(read.value).Some?
  }

  /** The table is what the last load that parsed has read, or the first table if none did. */
  ghost predicate IsLastGoodTable(parse: Parser, before: Table, loads: seq<Option<string>>, after: Table) {
    || (after == before && forall k | 0 <= k < |loads| :: !Loadable(parse, loads[k]))
    || exists j | 0 <= j < |loads| ::
         && Loadable(parse, loads[j]) && after == parse(loads[j].value).value
         && forall k | j < k < |loads| :: !Loadable(parse, loads[k])
  }

  lemma LastGoodTableExtends(parse: Parser, before: Table, loads: seq<Option<string>>, after: Table,
                             read: Option<string>)
    requires IsLastGoodTable(parse, before, loads, after)
    ensures IsLastGoodTable(parse, before, loads + [read], AfterLoad(parse, after, read).0)
  {
    var all := loads + [read];
    if Loadable(parse, read) {
      assert all[|loads|] == read;
    } else if after == before && forall k | 0 <= k < |loads| :: !Loadable(parse, loads[k]) {
    } else {
      var j :| 0 <= j < |loads| && Loadable(parse, loads[j]) && after == parse(loads[j].value).value
               && forall k | j < k < |loads| :: !Loadable(parse, loads[k]);
      assert all[j] == loads[j];
    }
  }

  lemma {:induction false} LoadsPrefix(base: string, deliveries: seq<Delivery>, i: nat)
    requires i < |deliveries| && ChannelClosed !in deliveries[..i]
    ensures Loads(base, deliveries[..i + 1]) ==
            Loads(base, deliveries[..i]) +
            (if deliveries[i].Event? && Relevant(base, deliveries[i].name) then [deliveries[i].read] else [])
    ensures deliveries[i] == ChannelClosed ==> Loads(base, deliveries) == Loads(base, deliveries[..i])
  {
    if i == 0 {
      assert deliveries[..1] == [deliveries[0]] && deliveries[..0] == [];
      assert deliveries[..1][1..] == [];
    } else {
      assert deliveries[..i][0] == deliveries[0];
      assert forall d | d in deliveries[1..][..i - 1] :: d in deliveries[..i];
      LoadsPrefix(base, deliveries[1..], i - 1);
      assert deliveries[..i + 1][1..] == deliveries[1..][..i];
      assert deliveries[..i][1..] == deliveries[1..][..i - 1];
      assert deliveries[1..][..i - 1 + 1] == deliveries[1..][..i];
    }
  }

  /** The events that make the loop load, up to a closed channel: those of kubelet's link and of the mapping file
      itself, at these positions, each with what is read then. */
  ghost predicate AreLoadsAt(base: string, deliveries: seq<Delivery>, end: nat, loads: seq<Option<string>>,
                             at: seq<nat>)
    requires end <= |deliveries|
  {
    && |at| == |loads|
    && (forall i, j | 0 <= i < j < |at| :: at[i] < at[j])
    && (forall j | 0 <= j < |at| ::
          && at[j] < end && deliveries[at[j]].Event?
          && (deliveries[at[j]].name == "..data" || deliveries[at[j]].name == base)
          && deliveries[at[j]].read == loads[j])
    && (forall i | 0 <= i < end && deliveries[i].Event? ::
          deliveries[i].name == "..data" || deliveries[i].name == base ==> i in at)
  }

  lemma {:induction false} LoadsExactly(base: string, deliveries: seq<Delivery>, end: nat) returns (at: seq<nat>)
    requires end <= |deliveries| && ChannelClosed !in deliveries[..end]
    requires end < |deliveries| ==> deliveries[end] == ChannelClosed
    ensures AreLoadsAt(base, deliveries, end, Loads(base, deliveries), at)
  {
    at := LoadsUpTo(base, deliveries, end);
    if end < |deliveries| {
      LoadsPrefix(base, deliveries, end);
    } else {
      assert deliveries[..end] == deliveries;
    }
  }

  lemma {:induction false} LoadsUpTo(base: string, deliveries: seq<Delivery>, end: nat) returns (at: seq<nat>)
    requires end <= |deliveries| && ChannelClosed !in deliveries[..end]
    ensures AreLoadsAt(base, deliveries, end, Loads(base, deliveries[..end]), at)
  {
    if end == 0 {
      at := [];
    } else {
      var i := end - 1;
      assert forall d | d in deliveries[..i] :: d in deliveries[..end];
      assert deliveries[i] in deliveries[..end];
      var before := LoadsUpTo(base, deliveries, i);
      LoadsPrefix(base, deliveries, i);
      at := NextLoad(base, deliveries, i, end, Loads(base, deliveries[..i]), before);
    }
  }

  lemma NextLoad(base: string, deliveries: seq<Delivery>, i: nat, end: nat, loads: seq<Option<string>>,
                 before: seq<nat>)
    returns (at: seq<nat>)
    requires end == i + 1 <= |deliveries| && AreLoadsAt(base, deliveries, i, loads, before)
    ensures var last := deliveries[i];
            AreLoadsAt(base, deliveries, end,
                       loads + (if last.Event? && Relevant(base, last.name) then [last.read] else []), at)
  {
    if deliveries[i].Event? && Relevant(base, deliveries[i].name) {
      at := before + [i];
      assert forall k | k in before :: k in at;
      assert i in at;
    } else {
      at := before;
    }
  }

  /** Every lookup made so far, with the whole table it was answered from. */
  class LookupLog {
    ghost var lookups: seq<(Table, string)>

    constructor ()
      ensures lookups == []
    {
      lookups := [];
    }
  }

  class MappingManager {
    const parse: Parser
    const log: LookupLog
    var mappings: Table

    constructor (parse: Parser)
      ensures this.parse == parse && mappings == map[] && fresh(log) && log.lookups == []
    {
      this.parse := parse;
      this.log := new LookupLog();
      mappings := map[];
    }

    /** NewMappingManager up to the start of the watch: no manager unless the first load succeeds. */
    static method New(parse: Parser, read: Option<string>) returns (manager: MappingManager?)
      ensures manager != null <==> Loadable(parse, read)
      ensures manager != null ==>
                fresh(manager) && manager.parse == parse && manager.mappings == parse(read.value).value
    {
      var m := new MappingManager(parse);
      var ok := m.LoadMappings(read);
      manager := if ok then m else null;
    }

    method LoadMappings(read: Option<string>) returns (ok: bool)
      modifies this`mappings
      ensures (mappings, ok) == AfterLoad(parse, old(mappings), read)
    {
      if read == None {
        return false;
      }
      var newMappings := parse(read.value);
      if newMappings == None {
        return false;
      }
      mappings := newMappings.value;
      ok := true;
    }

    method WatchFile(base: string, deliveries: seq<Delivery>)
      modifies this`mappings
      ensures IsLastGoodTable(parse, old(mappings), Loads(base, deliveries), mappings)
    {
      for i := 0 to |deliveries|
        invariant ChannelClosed !in deliveries[..i]
        invariant IsLastGoodTable(parse, old(mappings), Loads(base, deliveries[..i]), mappings)
      {
        LoadsPrefix(base, deliveries, i);
        match deliveries[i] {
          case ChannelClosed =>
            return;
          case Event(name, read) =>
            if name == KUBELET_DATA_SYMLINK || name == base {
              LastGoodTableExtends(parse, old(mappings), Loads(base, deliveries[..i]), mappings, read);
              var _ := LoadMappings(read);
            } else {
              assert Loads(base, deliveries[..i + 1]) == Loads(base, deliveries[..i]);
            }
          case WatcherError =>
            assert Loads(base, deliveries[..i + 1]) == Loads(base, deliveries[..i]);
        }
      }
      assert deliveries[..|deliveries|] == deliveries;
    }

    method GetNamespace(pathSuffix: string) returns (namespace: string, found: bool)
      modifies log
      ensures found == (pathSuffix in mappings)
      ensures namespace == if found then mappings[pathSuffix] else ""
      ensures log.lookups == old(log.lookups) + [(mappings, pathSuffix)]
    {
      log.lookups := log.lookups + [(mappings, pathSuffix)];
      found := pathSuffix in mappings;
      namespace := if found then mappings[pathSuffix] else "";
    }
  }
}
