/**
 * The two peer-discovery passes of a tend cycle, as functions of the
 * validator's answers and of what the node tables already hold.
 *
 * - The legacy pass (addFriends / prepareFriend) folds the hosts of the
 *   services list into three key sets: the hosts seen this cycle, the names
 *   of nodes found this cycle and not yet published, and the hosts of the
 *   cluster-wide alias table.
 * - The peers pass (refreshPeers) walks the peer list, creating a node for a
 *   validated name that no table holds yet and recording which hosts it
 *   tried to connect to.
 */
module Discovery {

  import opened Wrappers
  import opened Seqs
  import opened Types

  // ------------------------------------------------------------ legacy pass

  /** The tables touched by the legacy pass, seen by their keys. */
  datatype FriendState = FriendState(hosts: set<Host>, pending: set<string>, aliasHosts: set<Host>)

  /**
   * prepareFriend on a host that is neither an alias nor already seen: a
   * host that fails validation changes nothing; a validated name found this
   * cycle only marks the host seen; a published name also makes the host a
   * cluster alias; any other name becomes one new pending node.
   */
  function AcceptFriend(st: FriendState, host: Host, published: set<string>, validate: Validator): (r: FriendState)
    ensures validate(host).None? ==> r == st
    ensures validate(host).Some? ==> r.hosts == st.hosts + {host} && validate(host).value.name in r.pending + published
    ensures st.pending <= r.pending && st.aliasHosts <= r.aliasHosts <= st.aliasHosts + {host}
  {
    match validate(host)
    case None => st
    case Some(nv) =>
      if nv.name in st.pending then st.(hosts := st.hosts + {host})
      else if nv.name in published then st.(hosts := st.hosts + {host}, aliasHosts := st.aliasHosts + {host})
      else st.(hosts := st.hosts + {host}, pending := st.pending + {nv.name})
  }

  /** One turn of addFriends' loop: a cluster alias or a host seen this cycle is not validated again. */
  function FriendStep(st: FriendState, host: Host, published: set<string>, validate: Validator): (r: FriendState)
    ensures host in st.aliasHosts || host in st.hosts ==> r == st
    ensures validate(host).Some? ==> host in r.hosts || host in r.aliasHosts
    ensures st.hosts <= r.hosts && st.pending <= r.pending && st.aliasHosts <= r.aliasHosts
  {
    if host in st.aliasHosts || host in st.hosts then st
    else AcceptFriend(st, host, published, validate)
  }

  /** addFriends over a list of hosts, in order: it adds to the tables and never removes from them. */
  function FoldFriends(st: FriendState, hosts: seq<Host>, published: set<string>, validate: Validator): (r: FriendState)
    ensures st.hosts <= r.hosts && st.pending <= r.pending && st.aliasHosts <= r.aliasHosts
    decreases |hosts|
  {
    if hosts == [] then st
    else FriendStep(FoldFriends(st, hosts[..|hosts| - 1], published, validate), hosts[|hosts| - 1], published, validate)
  }

  /** The fold up to and including hosts[i] is one more step after the fold up to hosts[i]. */
  lemma FoldFriendsStep(st: FriendState, hosts: seq<Host>, i: nat, published: set<string>, validate: Validator)
    requires i < |hosts|
    ensures FoldFriends(st, hosts[..i + 1], published, validate)
         == FriendStep(FoldFriends(st, hosts[..i], published, validate), hosts[i], published, validate)
  {
    assert hosts[..i + 1][..i] == hosts[..i];
  }

  /** The names the validator reports for the hosts that validate. */
  function ValidatedNames(hosts: seq<Host>, validate: Validator): set<string>
  {
    set i | 0 <= i < |hosts| && validate(hosts[i]).Some? :: validate(hosts[i]).value.name
  }

  /** The hosts that validate with a name of the given set. */
  function HostsNamed(hosts: seq<Host>, names: set<string>, validate: Validator): set<Host>
  {
    set i | 0 <= i < |hosts| && validate(hosts[i]).Some? && validate(hosts[i]).value.name in names :: hosts[i]
  }

  /**
   * Every listed host that validates ends the pass seen this cycle or
   * registered as a cluster alias: one unreachable host never keeps the
   * others from being discovered.
   */
  lemma {:induction false} FoldFriendsCovers(st: FriendState, hosts: seq<Host>, published: set<string>, validate: Validator)
    ensures var r := FoldFriends(st, hosts, published, validate);
      forall i :: 0 <= i < |hosts| && validate(hosts[i]).Some? ==> hosts[i] in r.hosts || hosts[i] in r.aliasHosts
    decreases |hosts|
  {
    if hosts != [] {
      var front := hosts[..|hosts| - 1];
      var last := hosts[|hosts| - 1];
      var r0 := FoldFriends(st, front, published, validate);
      FoldFriendsCovers(st, front, published, validate);
      var r := FriendStep(r0, last, published, validate);
      assert r0.hosts <= r.hosts && r0.aliasHosts <= r.aliasHosts;
      forall i | 0 <= i < |hosts| && validate(hosts[i]).Some?
        ensures hosts[i] in r.hosts || hosts[i] in r.aliasHosts
      {
        if i < |hosts| - 1 {
          assert hosts[i] == front[i];
        }
      }
    }
  }

  /**
   * What the legacy pass adds is accounted for: new pending names are
   * validated names that no published node has, and new aliases are hosts
   * that validated with a published name.
   */
  lemma {:induction false} FoldFriendsAdds(st: FriendState, hosts: seq<Host>, published: set<string>, validate: Validator)
    ensures var r := FoldFriends(st, hosts, published, validate);
      && r.pending - st.pending <= ValidatedNames(hosts, validate) - published
      && r.aliasHosts - st.aliasHosts <= HostsNamed(hosts, published, validate)
      && r.hosts - st.hosts <= HostsNamed(hosts, ValidatedNames(hosts, validate), validate)
    decreases |hosts|
  {
    if hosts != [] {
      var front := hosts[..|hosts| - 1];
      var n := |hosts| - 1;
      var last := hosts[n];
      FoldFriendsAdds(st, front, published, validate);
      assert forall i :: 0 <= i < |front| ==> front[i] == hosts[i];
      assert ValidatedNames(front, validate) <= ValidatedNames(hosts, validate);
      assert HostsNamed(front, published, validate) <= HostsNamed(hosts, published, validate);
      assert HostsNamed(front, ValidatedNames(front, validate), validate)
          <= HostsNamed(hosts, ValidatedNames(hosts, validate), validate);
      var r0 := FoldFriends(st, front, published, validate);
      var r := FriendStep(r0, last, published, validate);
      assert r == FoldFriends(st, hosts, published, validate);
      if validate(last).Some? {
        var name := validate(last).value.name;
        assert name in ValidatedNames(hosts, validate);
        assert last in HostsNamed(hosts, ValidatedNames(hosts, validate), validate);
        if name in published {
          assert last in HostsNamed(hosts, published, validate);
        }
        assert r.pending <= r0.pending + ({name} - published);
        assert name !in published ==> name in ValidatedNames(hosts, validate) - published;
        assert r0.pending - st.pending <= ValidatedNames(hosts, validate) - published;
        forall x | x in r.pending - st.pending ensures x in ValidatedNames(hosts, validate) - published {
          if x in r0.pending {
          } else {
            assert x == name;
          }
        }
      } else {
        assert r == r0;
      }
    }
  }

  /** Hosts already seen this cycle or already cluster aliases are skipped: the pass changes nothing. */
  lemma {:induction false} FoldFriendsSkipsSeen(st: FriendState, hosts: seq<Host>, published: set<string>, validate: Validator)
    requires forall i :: 0 <= i < |hosts| ==> hosts[i] in st.hosts || hosts[i] in st.aliasHosts
    ensures FoldFriends(st, hosts, published, validate) == st
    decreases |hosts|
  {
    if hosts != [] {
      FoldFriendsSkipsSeen(st, hosts[..|hosts| - 1], published, validate);
    }
  }

  /**
   * Two listed hosts that validate as two different new servers give two
   * pending nodes, and neither becomes an alias.
   */
  lemma TwoNewFriends(h1: Host, h2: Host, published: set<string>, validate: Validator)
    requires h1 != h2
    requires validate(h1).Some? && validate(h2).Some?
    requires validate(h1).value.name != validate(h2).value.name
    requires validate(h1).value.name !in published && validate(h2).value.name !in published
    ensures FoldFriends(FriendState({}, {}, {}), [h1, h2], published, validate)
         == FriendState({h1, h2}, {validate(h1).value.name, validate(h2).value.name}, {})
  {
    var st0 := FriendState({}, {}, {});
    assert [h1, h2][..1] == [h1];
    assert [h1][..0] == [];
    assert FoldFriends(st0, [h1], published, validate) == FriendState({h1}, {validate(h1).value.name}, {});
  }

  // -------------------------------------------------------------- peers pass

  /** Whether a host validates. */
  function Validates(validate: Validator): Host -> bool
  {
    (h: Host) => validate(h).Some?
  }

  /** The identity of the first host that validates, trying them in order. */
  function FirstIdentity(hosts: seq<Host>, validate: Validator): (r: Option<NodeIdentity>)
    ensures r.Some? <==> exists i :: 0 <= i < |hosts| && validate(hosts[i]).Some?
  {
    var k := FirstIndex(hosts, Validates(validate));
    if k < |hosts| then validate(hosts[k]) else None
  }

  /** What the peers pass does with one peer. */
  datatype PeerOutcome = PeerOutcome(created: Option<NodeIdentity>, tried: seq<Host>)

  /**
   * One peer of refreshPeers: a peer whose name the tables know is not
   * connected to; otherwise its hosts are tried in order up to the first
   * that validates, and a node is created for the validated identity unless
   * the tables already know that name.
   */
  function PeerStep(p: Peer, known: set<string>, validate: Validator): (r: PeerOutcome)
    ensures p.nodeName in known ==> r == PeerOutcome(None, [])
    ensures |r.tried| <= |p.hosts| && r.tried == p.hosts[..|r.tried|]
    ensures forall j :: 0 <= j < |r.tried| - 1 ==> validate(r.tried[j]).None?
    ensures r.created.Some? ==> r.tried != [] && validate(r.tried[|r.tried| - 1]) == r.created
    ensures r.created.Some? ==> r.created.value.name !in known
  {
    if p.nodeName in known then PeerOutcome(None, [])
    else
      var k := FirstIndex(p.hosts, Validates(validate));
      if k == |p.hosts| then PeerOutcome(None, p.hosts)
      else
        var nv := validate(p.hosts[k]).value;
        PeerOutcome(if nv.name in known then None else Some(nv), p.hosts[..k + 1])
  }

  /** The whole peers pass: the identities it creates nodes for and the hosts it tries, in order. */
  datatype Walk = Walk(created: seq<NodeIdentity>, tried: seq<Host>)

  function Names(ids: seq<NodeIdentity>): set<string>
  {
    set i | 0 <= i < |ids| :: ids[i].name
  }

  function OptionSeq(o: Option<NodeIdentity>): seq<NodeIdentity>
  {
    match o
    case None => []
    case Some(nv) => [nv]
  }

  /** refreshPeers over the peer list; each peer sees the names known before it plus those created so far. */
  function WalkPeers(list: seq<Peer>, known: set<string>, validate: Validator): (r: Walk)
    ensures |r.created| <= |list|
    decreases |list|
  {
    if list == [] then Walk([], [])
    else
      var w := WalkPeers(list[..|list| - 1], known, validate);
      var s := PeerStep(list[|list| - 1], known + Names(w.created), validate);
      Walk(w.created + OptionSeq(s.created), w.tried + s.tried)
  }

  /** One more peer of the walk, as the loop of refreshPeers takes it. */
  lemma WalkPeersStep(list: seq<Peer>, i: nat, known: set<string>, validate: Validator)
    requires i < |list|
    ensures var w := WalkPeers(list[..i], known, validate);
      var s := PeerStep(list[i], known + Names(w.created), validate);
      WalkPeers(list[..i + 1], known, validate) == Walk(w.created + OptionSeq(s.created), w.tried + s.tried)
  {
    assert list[..i + 1][..i] == list[..i];
  }

  predicate DistinctNames(ids: seq<NodeIdentity>)
  {
    forall i, j :: 0 <= i < j < |ids| ==> ids[i].name != ids[j].name
  }

  lemma NamesAppend(ids: seq<NodeIdentity>, o: Option<NodeIdentity>)
    ensures Names(ids + OptionSeq(o)) == Names(ids) + (if o.Some? then {o.value.name} else {})
  {
    var all := ids + OptionSeq(o);
    assert forall i :: 0 <= i < |ids| ==> all[i] == ids[i];
    if o.Some? {
      assert all[|ids|] == o.value;
    }
  }

  /**
   * The peers pass creates at most one node per name, and none for a name
   * the tables already held: the heart of "one node per server".
   */
  lemma {:induction false} WalkCreatesDistinctNewNames(list: seq<Peer>, known: set<string>, validate: Validator)
    ensures var w := WalkPeers(list, known, validate);
      DistinctNames(w.created) && Names(w.created) !! known
    decreases |list|
  {
    if list != [] {
      var w := WalkPeers(list[..|list| - 1], known, validate);
      WalkCreatesDistinctNewNames(list[..|list| - 1], known, validate);
      var s := PeerStep(list[|list| - 1], known + Names(w.created), validate);
      NamesAppend(w.created, s.created);
      var created := w.created + OptionSeq(s.created);
      forall i, j | 0 <= i < j < |created| ensures created[i].name != created[j].name {
        if j == |w.created| {
          assert created[i] == w.created[i];
          assert created[i].name in Names(w.created);
        }
      }
    }
  }

  /** A peer list whose every name is already known makes no connection attempt and creates nothing. */
  lemma {:induction false} WalkSkipsKnownPeers(list: seq<Peer>, known: set<string>, validate: Validator)
    requires forall i :: 0 <= i < |list| ==> list[i].nodeName in known
    ensures WalkPeers(list, known, validate) == Walk([], [])
    decreases |list|
  {
    if list != [] {
      WalkSkipsKnownPeers(list[..|list| - 1], known, validate);
      assert Names([]) == {};
    }
  }

  /**
   * After the peers pass, every listed peer is accounted for: its name is
   * known or created, or none of its hosts validates, or the name its first
   * validating host reports is known or created.
   */
  lemma {:induction false} WalkCovers(list: seq<Peer>, known: set<string>, validate: Validator)
    ensures var all := known + Names(WalkPeers(list, known, validate).created);
      forall i :: 0 <= i < |list| ==>
        list[i].nodeName in all
        || FirstIdentity(list[i].hosts, validate).None?
        || FirstIdentity(list[i].hosts, validate).value.name in all
    decreases |list|
  {
    if list != [] {
      var front := list[..|list| - 1];
      var p := list[|list| - 1];
      var w := WalkPeers(front, known, validate);
      WalkCovers(front, known, validate);
      var s := PeerStep(p, known + Names(w.created), validate);
      assert WalkPeers(list, known, validate).created == w.created + OptionSeq(s.created);
      NamesAppend(w.created, s.created);
      PeerStepCovers(p, known + Names(w.created), validate);
      var all := known + Names(WalkPeers(list, known, validate).created);
      assert known + Names(w.created) <= all;
      forall i | 0 <= i < |list|
        ensures list[i].nodeName in all
          || FirstIdentity(list[i].hosts, validate).None?
          || FirstIdentity(list[i].hosts, validate).value.name in all
      {
        if i < |list| - 1 {
          assert list[i] == front[i];
        }
      }
    }
  }

  /** The peer a step visits is accounted for by the names known to the step plus the one it creates. */
  lemma PeerStepCovers(p: Peer, known: set<string>, validate: Validator)
    ensures var s := PeerStep(p, known, validate);
      var names := known + (if s.created.Some? then {s.created.value.name} else {});
      || p.nodeName in names
      || FirstIdentity(p.hosts, validate).None?
      || FirstIdentity(p.hosts, validate).value.name in names
  {
  }
}
