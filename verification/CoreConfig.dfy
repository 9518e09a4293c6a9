/** Normalization of announce groups when a configuration is loaded (internal/core/config.go), and the
    mapping handed to the announcer on a core reload (internal/core/core.go). */
module CoreConfig {
  import opened Keys
  import opened PrefixSpec

  /** A service's key and its configured announce group; the empty group means "not announced". */
  datatype Entry = Entry(key: Service, group: string)

  class ServiceConfig {
    const key: Service
    var announceGroup: string

    constructor (key: Service, announceGroup: string)
      ensures this.key == key && this.announceGroup == announceGroup
    {
      this.key, this.announceGroup := key, announceGroup;
    }

    ghost function View(): Entry
      reads this
    {
      Entry(key, announceGroup)
    }
  }

  ghost function Views(services: seq<ServiceConfig>): seq<Entry>
    reads services
  {
    seq(|services|, i requires 0 <= i < |services| reads services => services[i].View())
  }

  /** The group of the first announced service of the prefix, or the empty group. */
  function FirstGroup(entries: seq<Entry>, p: Prefix): string {
    if entries == [] then ""
    else if entries[0].group != "" && entries[0].key.HostPrefix() == p then entries[0].group
    else FirstGroup(entries[1..], p)
  }

  /** Entry `j` is the first announced one of the prefix. */
  predicate IsFirst(entries: seq<Entry>, j: nat, p: Prefix) {
    && j < |entries| && entries[j].group != "" && entries[j].key.HostPrefix() == p
    && forall k :: 0 <= k < j ==> !(entries[k].group != "" && entries[k].key.HostPrefix() == p)
  }

  lemma {:induction false} FirstGroupIs(entries: seq<Entry>, j: nat, p: Prefix)
    requires IsFirst(entries, j, p)
    ensures FirstGroup(entries, p) == entries[j].group
  {
    if j > 0 {
      FirstGroupIs(entries[1..], j - 1, p);
    }
  }

  function Normalized(entries: seq<Entry>): (r: seq<Entry>)
    ensures |r| == |entries|
  {
    seq(|entries|, i requires 0 <= i < |entries| =>
      if entries[i].group == "" then entries[i] else entries[i].(group := FirstGroup(entries, entries[i].key.HostPrefix())))
  }

  lemma {:induction false} FirstGroupExtends(entries: seq<Entry>, e: Entry, p: Prefix)
    ensures FirstGroup(entries + [e], p) ==
              if FirstGroup(entries, p) != "" then FirstGroup(entries, p)
              else if e.key.HostPrefix() == p then e.group else ""
  {
    if entries == [] {
      assert [e][1..] == [];
    } else {
      assert (entries + [e])[1..] == entries[1..] + [e];
      FirstGroupExtends(entries[1..], e, p);
    }
  }

  /** An announced entry's prefix has a first group, that of some entry of the same prefix. */
  lemma {:induction false} FirstGroupFound(entries: seq<Entry>, i: nat) returns (j: nat)
    requires i < |entries| && entries[i].group != ""
    ensures j <= i && IsFirst(entries, j, entries[i].key.HostPrefix())
    ensures entries[j].group == FirstGroup(entries, entries[i].key.HostPrefix()) != ""
  {
    if entries[0].group != "" && entries[0].key.HostPrefix() == entries[i].key.HostPrefix() {
      j := 0;
    } else {
      j := FirstGroupFound(entries[1..], i - 1);
      j := j + 1;
    }
  }

  /** Once a prefix has a first group, later entries do not change it. */
  lemma {:induction false} FirstGroupPrefix(entries: seq<Entry>, k: nat, p: Prefix)
    requires k <= |entries| && FirstGroup(entries[..k], p) != ""
    ensures FirstGroup(entries, p) == FirstGroup(entries[..k], p)
  {
    if entries[0].group != "" && entries[0].key.HostPrefix() == p {
    } else {
      assert entries[..k][1..] == entries[1..][..k - 1];
      FirstGroupPrefix(entries[1..], k - 1, p);
    }
  }

  /** The map holds exactly the prefixes that have a first group, with that group. */
  ghost predicate Recorded(prefixes: map<Prefix, string>, entries: seq<Entry>) {
    forall p: Prefix :: if p in prefixes then prefixes[p] == FirstGroup(entries, p) != "" else FirstGroup(entries, p) == ""
  }

  lemma NothingRecorded()
    ensures Recorded(map[], [])
  {
  }

  lemma RecordNext(prefixes: map<Prefix, string>, entries: seq<Entry>, e: Entry)
    requires Recorded(prefixes, entries)
    ensures var p := e.key.HostPrefix();
            Recorded(if e.group == "" || p in prefixes then prefixes else prefixes[p := e.group], entries + [e])
  {
    forall p {
      FirstGroupExtends(entries, e, p);
    }
  }

  method ValidateAnnounceGroups(services: seq<ServiceConfig>)
    requires forall i, j :: 0 <= i < j < |services| ==> services[i] != services[j]
    modifies services
    ensures Views(services) == Normalized(old(Views(services)))
    ensures FirstGroupsTaken(old(Views(services)), Views(services))
  {
    hide FirstGroupsTaken, Normalized, FirstGroup;
    ghost var entries := Views(services);
    var prefixes: map<Prefix, string> := map[];
    NothingRecorded();
    assert entries[..0] == [];
    for k := 0 to |services|
      invariant forall i :: 0 <= i < k ==> services[i].View() == Normalized(entries)[i]
      invariant forall i :: k <= i < |services| ==> services[i].View() == entries[i]
      invariant Recorded(prefixes, entries[..k])
    {
      RecordNext(prefixes, entries[..k], entries[k]);
      assert entries[..k + 1] == entries[..k] + [entries[k]];
      assert services[k].View() == entries[k];
      NormalizedAt(entries, k);
      if services[k].announceGroup != "" {
        var prefix := services[k].key.HostPrefix();
        if prefix !in prefixes {
          prefixes := prefixes[prefix := services[k].announceGroup];
        }
        FirstGroupPrefix(entries, k + 1, prefix);
        services[k].announceGroup := prefixes[prefix];
      }
    }
    assert Views(services) == Normalized(entries);
    NormalizedTakesFirst(entries);
  }

  lemma NormalizedAt(entries: seq<Entry>, i: nat)
    requires i < |entries|
    ensures Normalized(entries)[i]
         == if entries[i].group == "" then entries[i] else entries[i].(group := FirstGroup(entries, entries[i].key.HostPrefix()))
  {
  }

  /** A service that is not announced stays so; any other takes the group of the first announced one of its
      prefix. */
  ghost predicate FirstGroupsTaken(entries: seq<Entry>, entries': seq<Entry>) {
    && |entries'| == |entries|
    && forall i :: 0 <= i < |entries| ==>
         && entries'[i].key == entries[i].key && (entries[i].group == "" ==> entries'[i].group == "")
         && forall j: nat :: entries[i].group != "" && IsFirst(entries, j, entries[i].key.HostPrefix()) ==>
              entries'[i].group == entries[j].group
  }

  lemma NormalizedTakesFirst(entries: seq<Entry>)
    ensures FirstGroupsTaken(entries, Normalized(entries))
  {
    forall i, j: nat | 0 <= i < |entries| && entries[i].group != "" && IsFirst(entries, j, entries[i].key.HostPrefix())
      ensures Normalized(entries)[i].group == entries[j].group
    {
      FirstGroupIs(entries, j, entries[i].key.HostPrefix());
    }
  }

  /** The mapping handed to the announcer: announced services and their groups; of two entries with
      the same key the later one wins. */
  method ServicesForAnnouncer(services: seq<ServiceConfig>) returns (groups: map<Service, string>)
    ensures groups == Announced(Views(services))
    ensures forall s <- groups :: exists i: nat :: IsLast(Views(services), i, s) && groups[s] == services[i].announceGroup
    ensures forall i :: 0 <= i < |services| && services[i].announceGroup != "" ==> services[i].key in groups
  {
    groups := map[];
    for k := 0 to |services|
      invariant groups == Announced(Views(services)[..k])
    {
      assert Views(services)[..k + 1] == Views(services)[..k] + [services[k].View()];
      assert Views(services)[..k + 1][..k] == Views(services)[..k];
      if services[k].announceGroup != "" {
        groups := groups[services[k].key := services[k].announceGroup];
      }
    }
    ghost var entries := Views(services);
    assert entries[..|services|] == entries;
    forall s <- groups
      ensures exists i: nat :: IsLast(entries, i, s) && groups[s] == services[i].announceGroup
    {
      AnnouncedFrom(entries, s);
      var i: nat :| IsLast(entries, i, s) && entries[i].group == groups[s];
      assert services[i].View() == entries[i];
    }
    forall i | 0 <= i < |services| && services[i].announceGroup != ""
      ensures services[i].key in groups
    {
      assert entries[i] == services[i].View();
      AnnouncedFrom(entries, services[i].key);
    }
  }

  /** Entry `i` is the last announced one of the service. */
  predicate IsLast(entries: seq<Entry>, i: nat, s: Service) {
    && i < |entries| && entries[i].key == s && entries[i].group != ""
    && forall j :: i < j < |entries| && entries[j].key == s ==> entries[j].group == ""
  }

  function Announced(entries: seq<Entry>): map<Service, string> {
    if entries == [] then map[]
    else
      var n := |entries| - 1;
      if entries[n].group == "" then Announced(entries[..n]) else Announced(entries[..n])[entries[n].key := entries[n].group]
  }

  lemma {:induction false} AnnouncedFrom(entries: seq<Entry>, s: Service)
    ensures s in Announced(entries) <==> exists i :: 0 <= i < |entries| && entries[i].key == s && entries[i].group != ""
    ensures s in Announced(entries) ==> exists i: nat :: IsLast(entries, i, s) && entries[i].group == Announced(entries)[s]
  {
    if entries != [] {
      var n := |entries| - 1;
      AnnouncedFrom(entries[..n], s);
      if entries[n].group != "" && entries[n].key == s {
        assert IsLast(entries, n, s);
      } else if s in Announced(entries[..n]) {
        var i: nat :| IsLast(entries[..n], i, s) && entries[..n][i].group == Announced(entries[..n])[s];
        assert forall j :: 0 <= j < n ==> entries[j] == entries[..n][j];
        assert IsLast(entries, i, s);
      }
      forall i | 0 <= i < n && entries[i].key == s && entries[i].group != ""
        ensures s in Announced(entries[..n])
      {
        assert entries[..n][i] == entries[i];
      }
    }
  }

  /** A normalized announced entry carries its prefix's first group. */
  lemma NormalizedGroup(entries: seq<Entry>, i: nat)
    requires i < |entries|
    ensures var n := Normalized(entries)[i];
            && n.key == entries[i].key && (n.group == "" <==> entries[i].group == "")
            && (n.group != "" ==> n.group == FirstGroup(entries, n.key.HostPrefix()))
  {
    if entries[i].group != "" {
      var j := FirstGroupFound(entries, i);
    }
  }

  /** After normalization every prefix has one group, namely its first configured one, so that the
      announcer can only reject an unknown group; the same services are announced as before; and
      normalizing again changes nothing. */
  lemma NormalizedIsConsistent(entries: seq<Entry>)
    ensures OneGroupPerPrefix(Announced(Normalized(entries)))
    ensures forall s <- Announced(Normalized(entries)) :: Announced(Normalized(entries))[s] == FirstGroup(entries, s.HostPrefix())
    ensures Announced(Normalized(entries)).Keys == Announced(entries).Keys
    ensures Normalized(Normalized(entries)) == Normalized(entries)
  {
    var normal := Normalized(entries);
    forall i | 0 <= i < |entries|
      ensures normal[i].key == entries[i].key && (normal[i].group == "" <==> entries[i].group == "")
      ensures normal[i].group != "" ==> normal[i].group == FirstGroup(entries, normal[i].key.HostPrefix())
    {
      NormalizedGroup(entries, i);
    }
    forall s
      ensures s in Announced(normal) <==> s in Announced(entries)
      ensures s in Announced(normal) ==> Announced(normal)[s] == FirstGroup(entries, s.HostPrefix())
    {
      AnnouncedFrom(normal, s);
      AnnouncedFrom(entries, s);
    }
    forall i | 0 <= i < |entries|
      ensures Normalized(normal)[i] == normal[i]
    {
      NormalizedGroup(normal, i);
      if normal[i].group != "" {
        var j := FirstGroupFound(normal, i);
        assert normal[j].group == FirstGroup(entries, normal[j].key.HostPrefix());
      }
    }
  }
}
