/** The index of hosts built from a cache that lists each of them more than once: by identity, by topology node and by address. */
module HostIndex {
  import opened Bytes

  const BAR: Byte := 0x7C

  /** A host record as read; an id, business or model that has no text is empty, and an address is both halves or none. */
  datatype Host = Host(id: Bytes, business: Bytes, nodes: seq<Bytes>, tenant: Bytes, address: Option<(Bytes, Bytes)>)

  predicate Distinct(nodes: seq<Bytes>) {
    forall i, j :: 0 <= i < j < |nodes| ==> nodes[i] != nodes[j]
  }

  /** What reading a record promises: numbers and addresses hold no bar, and the nodes are a set. */
  predicate WellRead(h: Host) {
    BAR !in h.business && Distinct(h.nodes) && (h.address.Some? ==> BAR !in h.address.value.0 && BAR !in h.address.value.1)
  }

  /** How a payload reads, if it does. */
  type Decoder = Bytes -> Option<Host>

  ghost predicate ReadsWell(decode: Decoder) {
    forall payload :: decode(payload).Some? ==> WellRead(decode(payload).value)
  }

  // ---------- Keys ----------

  function NodeKey(business: Bytes, node: Bytes): Bytes {
    business + [BAR] + node
  }

  function AddressKey(ip: Bytes, cloud: Bytes): Bytes {
    ip + [BAR] + cloud
  }

  function TenantKey(tenant: Bytes, key: Bytes): Bytes {
    tenant + [BAR] + key
  }

  lemma Ends(a: Bytes, b: Bytes)
    ensures var s := a + [BAR] + b;
            && s[0] == (if a == [] then BAR else a[0]) && s[1..] == (if a == [] then b else a[1..] + [BAR] + b)
            && s[|s| - 1] == (if b == [] then BAR else b[|b| - 1]) && s[..|s| - 1] == if b == [] then a else a + [BAR] + b[..|b| - 1]
  {
  }

  /** A part with no bar ends at the first one. */
  lemma {:induction false} FirstBar(a: Bytes, b: Bytes, c: Bytes, d: Bytes)
    requires BAR !in a && BAR !in c && a + [BAR] + b == c + [BAR] + d
    ensures a == c && b == d
  {
    Ends(a, b);
    Ends(c, d);
    if a != [] {
      FirstBar(a[1..], b, c[1..], d);
      assert a == [a[0]] + a[1..] && c == [c[0]] + c[1..];
    }
  }

  lemma NodeKeysDiffer(a: Bytes, n: Bytes, b: Bytes, m: Bytes)
    requires BAR !in a && BAR !in b
    ensures NodeKey(a, n) == NodeKey(b, m) <==> a == b && n == m
  {
    if NodeKey(a, n) == NodeKey(b, m) {
      FirstBar(a, n, b, m);
    }
  }

  /** A part with no bar starts after the last one. */
  lemma {:induction false} LastBar(a: Bytes, b: Bytes, c: Bytes, d: Bytes)
    requires BAR !in b && BAR !in d && a + [BAR] + b == c + [BAR] + d
    ensures a == c && b == d
    decreases |b|
  {
    Ends(a, b);
    Ends(c, d);
    if b != [] {
      LastBar(a, b[..|b| - 1], c, d[..|d| - 1]);
      assert b == b[..|b| - 1] + [b[|b| - 1]] && d == d[..|d| - 1] + [d[|d| - 1]];
    }
  }

  /** A tenant and an address name one key of their own, whatever bars the tenant holds. */
  lemma AddressesDiffer(t: Bytes, ip: Bytes, cloud: Bytes, u: Bytes, jp: Bytes, dloud: Bytes)
    requires BAR !in ip && BAR !in cloud && BAR !in jp && BAR !in dloud
    ensures TenantKey(t, AddressKey(ip, cloud)) == TenantKey(u, AddressKey(jp, dloud)) <==> t == u && ip == jp && cloud == dloud
  {
    var a, b := TenantKey(t, AddressKey(ip, cloud)), TenantKey(u, AddressKey(jp, dloud));
    if a == b {
      assert a == (t + [BAR] + ip) + [BAR] + cloud && b == (u + [BAR] + jp) + [BAR] + dloud;
      LastBar(t + [BAR] + ip, cloud, u + [BAR] + jp, dloud);
      LastBar(t, ip, u, jp);
    }
  }

  // ---------- What the index is to hold ----------

  predicate Listed(hosts: seq<Host>, id: Bytes) {
    exists h <- hosts :: h.id == id
  }

  /** The hosts of some records: the first record of each id, and every record that has none. */
  function Firsts(records: seq<Host>): seq<Host> {
    if records == [] then []
    else
      var before, last := Firsts(records[..|records| - 1]), records[|records| - 1];
      if last.id != [] && Listed(before, last.id) then before else before + [last]
  }

  lemma {:induction false} FirstsNone(records: seq<Host>)
    ensures Firsts(records) == [] <==> records == []
  {
    if |records| == 1 {
      assert records[..0] == [];
    } else if records != [] {
      FirstsNone(records[..|records| - 1]);
    }
  }

  /** The hosts of a tenant that are at an address and have an id, each by the first of its records. */
  function HostsThere(records: seq<Host>, tenant: Bytes, ip: Bytes, cloud: Bytes): seq<Host> {
    Pick(Firsts(records), (h: Host) => h.id != [] && h.tenant == tenant && h.address == Some((ip, cloud)))
  }

  predicate IsUnder(h: Host, key: Bytes) {
    h.business != [] && KeyAmong(h.business, h.nodes, key)
  }

  predicate HasAddress(h: Host) {
    h.id != [] && h.tenant != [] && h.address.Some?
  }

  function AddressOf(h: Host): Bytes
    requires HasAddress(h)
  {
    AddressKey(h.address.value.0, h.address.value.1)
  }

  predicate IsAt(h: Host, key: Bytes) {
    HasAddress(h) && TenantKey(h.tenant, AddressOf(h)) == key
  }

  /** The hosts a test picks, in order. */
  function Pick(hosts: seq<Host>, test: Host -> bool): seq<Host> {
    if hosts == [] then [] else Plus(Pick(hosts[..|hosts| - 1], test), test(hosts[|hosts| - 1]), hosts[|hosts| - 1])
  }

  function Plus(hosts: seq<Host>, add: bool, h: Host): seq<Host> {
    if add then hosts + [h] else hosts
  }

  function UnderKey(hosts: seq<Host>, key: Bytes): seq<Host> {
    Pick(hosts, h => IsUnder(h, key))
  }

  function AtKey(hosts: seq<Host>, key: Bytes): seq<Host> {
    Pick(hosts, h => IsAt(h, key))
  }

  lemma PickSnoc(hosts: seq<Host>, h: Host, test: Host -> bool)
    ensures Pick(hosts + [h], test) == Plus(Pick(hosts, test), test(h), h)
  {
    assert (hosts + [h])[..|hosts|] == hosts;
  }

  lemma FirstsSnoc(records: seq<Host>, h: Host)
    ensures Firsts(records + [h]) == if h.id != [] && Listed(Firsts(records), h.id) then Firsts(records) else Firsts(records) + [h]
  {
    assert (records + [h])[..|records|] == records;
  }

  // ---------- The builder ----------

  /** The one host at an address, when there is exactly one, and how many there are. */
  datatype AddressHosts = AddressHosts(host: Option<Host>, count: nat)

  datatype TopologyAnswer = TopologyAnswer(resolved: bool, nodeKnown: bool, hostedElsewhere: bool, hosts: seq<Host>)

  const NO_ANSWER := TopologyAnswer(false, false, false, [])

  class IndexBuilder {
    var byIdentity: map<Bytes, Host>
    var byHostId: map<Bytes, Host>
    var byNode: map<Bytes, seq<Host>>
    var hostedNodes: set<Bytes>
    var hostsAt: map<Bytes, AddressHosts>
    var topoNodes: Option<set<Bytes>>
    var hosts: nat
    var refused: nat
    /** Every record read so far, and the field it was read under. */
    ghost var records: seq<Host>
    ghost var fields: seq<Bytes>

    function NodeHosts(key: Bytes): seq<Host>
      reads this`byNode
    {
      if key in byNode then byNode[key] else []
    }

    function Address(key: Bytes): AddressHosts
      reads this`hostsAt
    {
      if key in hostsAt then hostsAt[key] else AddressHosts(None, 0)
    }

    /** The reverse indexes hold exactly the hosts filed. */
    ghost predicate Files(filed: seq<Host>)
      reads this`hosts, this`byNode, this`hostedNodes, this`hostsAt
    {
      && hosts == |filed|
      && (forall key :: NodeHosts(key) == UnderKey(filed, key))
      && (forall n :: n in hostedNodes <==> exists h <- filed :: h.business != [] && n in h.nodes)
      && (forall key :: Address(key) == Summary(AtKey(filed, key)))
    }

    ghost predicate Identifies(filed: seq<Host>)
      reads this`byHostId
    {
      && (forall id :: id in byHostId <==> id != [] && Listed(filed, id))
      && (forall id :: id in byHostId ==> byHostId[id] in filed && byHostId[id].id == id)
    }

    ghost predicate Valid()
      reads this
    {
      && (forall h <- records :: WellRead(h))
      && Identifies(Firsts(records)) && Files(Firsts(records))
      && |fields| == |records| && byIdentity == IdentityMap(records, fields)
    }

    constructor ()
      ensures Valid() && records == [] && topoNodes == None
    {
      byIdentity, byHostId, byNode, hostedNodes, hostsAt := map[], map[], map[], {}, map[];
      topoNodes, hosts, refused, records, fields := None, 0, 0, [], [];
    }

    method AddTopologyNodes(nodes: seq<Bytes>)
      modifies this`topoNodes
      ensures topoNodes == Some(set n | n in nodes && n != [])
    {
      var listed: set<Bytes> := {};
      var i := 0;
      while i < |nodes|
        invariant 0 <= i <= |nodes| && listed == set n | n in nodes[..i] && n != []
      {
        assert nodes[..i + 1] == nodes[..i] + [nodes[i]];
        if nodes[i] != [] {
          listed := listed + {nodes[i]};
        }
        i := i + 1;
      }
      assert nodes[..i] == nodes;
      topoNodes := Some(listed);
    }

    method AddNode(key: Bytes, node: Bytes, h: Host)
      modifies this`byNode, this`hostedNodes
      ensures forall k :: NodeHosts(k) == Plus(old(NodeHosts(k)), k == key, h)
      ensures hostedNodes == old(hostedNodes) + {node}
    {
      byNode := byNode[key := (if key in byNode then byNode[key] else []) + [h]];
      hostedNodes := hostedNodes + {node};
    }

    /** Files a host under every node it sits on, under its business. */
    method AddToNodes(h: Host)
      requires WellRead(h)
      modifies this`byNode, this`hostedNodes
      ensures forall key :: NodeHosts(key) == Plus(old(NodeHosts(key)), IsUnder(h, key), h)
      ensures hostedNodes == old(hostedNodes) + if h.business == [] then {} else set n | n in h.nodes
    {
      hide KeyAmong, NodeKey, Distinct;
      if h.business == [] {
        return;
      }
      var i := 0;
      NoKeys(h.business, h.nodes);
      while i < |h.nodes|
        invariant 0 <= i <= |h.nodes|
        invariant forall key :: NodeHosts(key) == Plus(old(NodeHosts(key)), KeyAmong(h.business, h.nodes[..i], key), h)
        invariant hostedNodes == old(hostedNodes) + set n | n in h.nodes[..i]
      {
        var node := h.nodes[i];
        var key := NodeKey(h.business, node);
        NewKey(h.business, h.nodes, i);
        assert h.nodes[..i + 1] == h.nodes[..i] + [node];
        AddNode(key, node, h);
        i := i + 1;
      }
      assert h.nodes[..i] == h.nodes;
    }

    /** Counts a host at its address, which names a host only while it is the one there. */
    method AddAddress(h: Host)
      modifies this`hostsAt
      ensures forall key :: Address(key) == if IsAt(h, key)
                            then AddressHosts(if old(Address(key)).count == 0 then Some(h) else None, old(Address(key)).count + 1)
                            else old(Address(key))
    {
      if h.address.None? || h.id == [] || h.tenant == [] {
        return;
      }
      var key := TenantKey(h.tenant, AddressKey(h.address.value.0, h.address.value.1));
      var at := if key in hostsAt then hostsAt[key] else AddressHosts(None, 0);
      at := AddressHosts(Some(h), at.count + 1);
      if at.count > 1 {
        at := at.(host := None);
      }
      hostsAt := hostsAt[key := at];
    }

    /** Files a host in the reverse indexes. */
    method File(h: Host, ghost filed: seq<Host>)
      requires Files(filed) && WellRead(h)
      modifies this`hosts, this`byNode, this`hostedNodes, this`hostsAt
      ensures Files(filed + [h])
    {
      hide IsUnder, IsAt, Pick, WellRead;
      hosts := hosts + 1;
      AddToNodes(h);
      AddAddress(h);
      FilesSnoc(filed, h);
    }

    /** Keeps a host that is new under its id, if it has one. */
    method Remember(h: Host, ghost filed: seq<Host>)
      requires Identifies(filed) && (h.id != [] ==> !Listed(filed, h.id))
      modifies this`byHostId
      ensures Identifies(filed + [h])
    {
      hide Listed;
      forall id ensures Listed(filed + [h], id) <==> Listed(filed, id) || id == h.id {
        ListedSnoc(filed, h, id);
      }
      assert forall f :: f in filed + [h] <==> f in filed || f == h;
      if h.id != [] {
        byHostId := byHostId[h.id := h];
      }
    }

    lemma KnownHere(filed: seq<Host>, id: Bytes)
      requires Identifies(filed)
      ensures id in byHostId <==> id != [] && Listed(filed, id)
      ensures id in byHostId ==> byHostId[id] in filed && byHostId[id].id == id
    {
    }

    /** Consumes one record: a host already read under its id is only named again, any other is filed. */
    method AddRecord(identity: Bytes, h: Host)
      requires Valid() && WellRead(h)
      modifies this
      ensures Valid() && records == old(records) + [h] && fields == old(fields) + [identity]
      ensures unchanged(`topoNodes) && unchanged(`refused)
    {
      hide Firsts, Files, Identifies, IdentityMap, WellRead, OneEach, Listed;
      ghost var filed := Firsts(records);
      FirstsSnoc(records, h);
      IdentitySnoc(records, fields, h, identity);
      KnownIs(filed, h);
      FirstsOneEach(records);
      KnownHere(filed, h.id);
      if h.id != [] && h.id in byHostId {
        OneKnown(filed, h, byHostId[h.id]);
        byIdentity := byIdentity[identity := byHostId[h.id]];
      } else {
        byIdentity := byIdentity[identity := h];
        Remember(h, filed);
        File(h, filed);
      }
      records, fields := records + [h], fields + [identity];
    }

    method Refuse()
      requires Valid()
      modifies this`refused
      ensures Valid() && refused == old(refused) + 1
    {
      refused := refused + 1;
    }

    /** Consumes a page of alternating fields and payloads; a record that does not read is only counted. */
    method AddFields(page: seq<Bytes>, decode: Decoder)
      requires Valid() && ReadsWell(decode)
      modifies this
      ensures Valid() && records == old(records) + Decoded(page, |page| / 2, decode)
      ensures fields == old(fields) + DecodedFields(page, |page| / 2, decode)
      ensures refused == old(refused) + |page| / 2 - |Decoded(page, |page| / 2, decode)|
      ensures unchanged(`topoNodes)
    {
      hide Valid, WellRead, ReadsWell;
      var position := 0;
      while position + 1 < |page|
        invariant 0 <= position <= |page| && position % 2 == 0
        invariant Valid() && records == old(records) + Decoded(page, position / 2, decode)
        invariant fields == old(fields) + DecodedFields(page, position / 2, decode)
        invariant refused == old(refused) + position / 2 - |Decoded(page, position / 2, decode)|
        invariant unchanged(`topoNodes)
      {
        AddPair(page[position], page[position + 1], decode);
        position := position + 2;
      }
    }

    method AddPair(identity: Bytes, payload: Bytes, decode: Decoder)
      requires Valid() && ReadsWell(decode)
      modifies this
      ensures Valid() && unchanged(`topoNodes)
      ensures records == old(records) + (match decode(payload) case Some(h) => [h] case None => [])
      ensures fields == old(fields) + if decode(payload).Some? then [identity] else []
      ensures refused == old(refused) + if decode(payload).Some? then 0 else 1
    {
      hide Valid, WellRead;
      var h := decode(payload);
      if h.None? {
        Refuse();
        return;
      }
      AddRecord(identity, h.value);
    }

    // ---------- Answers ----------

    /** The hosts under a node of a business, and what their absence means. */
    method Topology(business: Bytes, objectId: Bytes, inst: Bytes) returns (answer: TopologyAnswer)
      ensures answer == if hosts == 0 || topoNodes == None then NO_ANSWER
                        else
                          var node := objectId + [BAR] + inst;
                          var under := NodeHosts(NodeKey(business, node));
                          TopologyAnswer(true, node in topoNodes.value, under == [] && node in hostedNodes, under)
      ensures Valid() ==> (answer.resolved <==> records != [] && topoNodes.Some?)
      ensures Valid() && answer.resolved && business != [] && BAR !in business ==>
                var node := objectId + [BAR] + inst;
                && (answer.nodeKnown <==> node in topoNodes.value)
                && (forall h :: h in answer.hosts <==> h in Firsts(records) && h.business == business && node in h.nodes) && OneEach(answer.hosts)
                && (answer.hostedElsewhere <==>
                      && (exists h <- Firsts(records) :: h.business != [] && node in h.nodes)
                      && forall h <- Firsts(records) :: h.business != [] && node in h.nodes ==> h.business != business)
    {
      hide Firsts, OneEach, IdentityMap, UnderKey, AtKey, Identifies;
      FirstsNone(records);
      if hosts == 0 || topoNodes == None {
        return NO_ANSWER;
      }
      var node := objectId + [BAR] + inst;
      var key := business + [BAR] + node;
      if Valid() && business != [] && BAR !in business {
        NodeIndexExactly(this, business, node);
        HostedElsewhereExactly(this, business, node);
      }
      var under := if key in byNode then byNode[key] else [];
      answer := TopologyAnswer(true, node in topoNodes.value, |under| == 0 && node in hostedNodes, under);
    }

    method AddressHost(tenant: Bytes, key: Bytes) returns (host: Option<Host>, count: nat)
      ensures AddressHosts(host, count) == Address(TenantKey(tenant, key))
      ensures Valid() && tenant != [] ==> forall ip, cloud | BAR !in ip && BAR !in cloud && key == AddressKey(ip, cloud) ::
                var there := HostsThere(records, tenant, ip, cloud);
                && count == |there| && OneEach(there)
                && (host.Some? <==> |there| == 1) && (host.Some? ==> there == [host.value])
    {
      if Valid() && tenant != [] {
        forall ip, cloud | BAR !in ip && BAR !in cloud && key == AddressKey(ip, cloud)
          ensures var at, there := Address(TenantKey(tenant, key)), HostsThere(records, tenant, ip, cloud);
                  && at.count == |there| && OneEach(there)
                  && (at.host.Some? <==> |there| == 1) && (at.host.Some? ==> there == [at.host.value])
        {
          AddressIndexExactly(this, tenant, ip, cloud);
        }
      }
      var at := if tenant + [BAR] + key in hostsAt then hostsAt[tenant + [BAR] + key] else AddressHosts(None, 0);
      return at.host, at.count;
    }

    lemma FilesSnoc(filed: seq<Host>, h: Host)
      requires hosts == |filed| + 1
      requires forall key :: NodeHosts(key) == Plus(UnderKey(filed, key), IsUnder(h, key), h)
      requires forall n :: n in hostedNodes <==> (exists f <- filed :: f.business != [] && n in f.nodes) || (h.business != [] && n in h.nodes)
      requires forall key :: Address(key) == if IsAt(h, key) then AddressHosts(if |AtKey(filed, key)| == 0 then Some(h) else None, |AtKey(filed, key)| + 1)
                                            else Summary(AtKey(filed, key))
      ensures Files(filed + [h])
    {
      hide IsUnder, IsAt, Pick;
      forall key ensures NodeHosts(key) == UnderKey(filed + [h], key) && Address(key) == Summary(AtKey(filed + [h], key)) {
        PickSnoc(filed, h, f => IsUnder(f, key));
        PickSnoc(filed, h, f => IsAt(f, key));
        UnderSnoc(filed, h, key);
      }
    }
  }

  lemma ListedSnoc(filed: seq<Host>, h: Host, id: Bytes)
    ensures Listed(filed + [h], id) <==> Listed(filed, id) || id == h.id
  {
    if id == h.id {
      assert h in filed + [h];
    }
  }

  lemma UnderSnoc(filed: seq<Host>, h: Host, key: Bytes)
    ensures UnderKey(filed + [h], key) == Plus(UnderKey(filed, key), IsUnder(h, key), h)
    ensures AtKey(filed + [h], key) == Plus(AtKey(filed, key), IsAt(h, key), h)
  {
    assert (filed + [h])[..|filed|] == filed;
  }

  lemma IdentitySnoc(records: seq<Host>, fields: seq<Bytes>, h: Host, identity: Bytes)
    requires |records| == |fields|
    ensures IdentityMap(records + [h], fields + [identity]) == IdentityMap(records, fields)[identity := KnownAs(Firsts(records), h)]
  {
    assert (records + [h])[..|records|] == records && (fields + [identity])[..|fields|] == fields;
  }

  /** The host known by an id is the one filed under it. */
  lemma OneKnown(filed: seq<Host>, h: Host, known: Host)
    requires OneEach(filed) && h.id != [] && known in filed && known.id == h.id
    ensures KnownAs(filed, h) == known
  {
    KnownIs(filed, h);
    var i :| 0 <= i < |filed| && filed[i] == known;
    var j :| 0 <= j < |filed| && filed[j] == KnownAs(filed, h);
  }

  /** The records of the first so many field and payload pairs of a page that read. */
  function Decoded(page: seq<Bytes>, pairs: nat, decode: Decoder): seq<Host>
    requires 2 * pairs <= |page|
  {
    if pairs == 0 then []
    else
      Decoded(page, pairs - 1, decode)
      + match decode(page[2 * pairs - 1])
        case Some(h) => [h]
        case None => []
  }

  function DecodedFields(page: seq<Bytes>, pairs: nat, decode: Decoder): seq<Bytes>
    requires 2 * pairs <= |page|
  {
    if pairs == 0 then []
    else DecodedFields(page, pairs - 1, decode) + if decode(page[2 * pairs - 1]).Some? then [page[2 * pairs - 2]] else []
  }

  predicate KeyAmong(business: Bytes, nodes: seq<Bytes>, key: Bytes) {
    exists n <- nodes :: NodeKey(business, n) == key
  }

  lemma NoKeys(business: Bytes, nodes: seq<Bytes>)
    ensures forall key :: !KeyAmong(business, nodes[..0], key)
  {
  }

  /** A node's key is not that of any node before it. */
  lemma NewKey(business: Bytes, nodes: seq<Bytes>, i: nat)
    requires BAR !in business && Distinct(nodes) && i < |nodes|
    ensures !KeyAmong(business, nodes[..i], NodeKey(business, nodes[i]))
    ensures forall key :: KeyAmong(business, nodes[..i + 1], key) <==> KeyAmong(business, nodes[..i], key) || key == NodeKey(business, nodes[i])
  {
    hide NodeKey;
    forall n <- nodes[..i] ensures NodeKey(business, n) != NodeKey(business, nodes[i]) {
      NodeKeysDiffer(business, n, business, nodes[i]);
    }
    assert nodes[..i + 1] == nodes[..i] + [nodes[i]];
    assert nodes[i] in nodes[..i + 1];
  }

  function Summary(at: seq<Host>): AddressHosts {
    AddressHosts(if |at| == 1 then Some(at[0]) else None, |at|)
  }

  /** The record a host is known by after some others: the first of its id, or its own. */
  function KnownAs(filed: seq<Host>, h: Host): Host {
    if h.id == [] || filed == [] then h
    else if filed[0].id == h.id then filed[0]
    else KnownAs(filed[1..], h)
  }

  /** Which host each field names: the one its latest record is of, as first read. */
  function IdentityMap(records: seq<Host>, fields: seq<Bytes>): map<Bytes, Host>
    requires |records| == |fields|
  {
    if records == [] then map[]
    else
      var n := |records| - 1;
      IdentityMap(records[..n], fields[..n])[fields[n] := KnownAs(Firsts(records[..n]), records[n])]
  }

  lemma {:induction false} KnownIs(filed: seq<Host>, h: Host)
    ensures h.id != [] && Listed(filed, h.id) ==> KnownAs(filed, h) in filed && KnownAs(filed, h).id == h.id
    ensures !(h.id != [] && Listed(filed, h.id)) ==> KnownAs(filed, h) == h
  {
    if filed != [] {
      assert filed == [filed[0]] + filed[1..];
      KnownIs(filed[1..], h);
      if h.id != [] && Listed(filed, h.id) && filed[0].id != h.id {
        var l :| l in filed && l.id == h.id;
        assert l in filed[1..];
      }
    }
  }

  /** Filing more hosts does not change who a host that is filed is known as. */
  lemma {:induction false} KnownStays(filed: seq<Host>, h: Host, more: Host)
    requires h.id == [] || Listed(filed, h.id)
    ensures KnownAs(filed + [more], h) == KnownAs(filed, h)
  {
    if h.id != [] && filed[0].id != h.id {
      assert filed == [filed[0]] + filed[1..];
      assert (filed + [more])[1..] == filed[1..] + [more];
      KnownStays(filed[1..], h, more);
    }
  }

  /**
   * A field no later record was read under names its record's host as first read: the two fields a host
   * is written under name one and the same.
   */
  lemma {:induction false} FieldNamesHost(records: seq<Host>, fields: seq<Bytes>, i: nat)
    requires |records| == |fields| && i < |fields| && fields[i] !in fields[i + 1..]
    ensures fields[i] in IdentityMap(records, fields)
    ensures IdentityMap(records, fields)[fields[i]] == KnownAs(Firsts(records), records[i])
    decreases |records|
  {
    hide KnownAs, Listed;
    var n := |records| - 1;
    var front, h := records[..n], records[n];
    assert records == front + [h];
    FirstsSnoc(front, h);
    FirstsOneEach(front);
    if i < n {
      assert fields[n] in fields[i + 1..];
      assert fields[..n][i + 1..] == fields[i + 1..][..n - i - 1];
      FieldNamesHost(front, fields[..n], i);
      assert records[i] in front;
      KnownStays(Firsts(front), records[i], h);
    } else if h.id != [] && Listed(Firsts(front), h.id) {
    } else {
      KnownNew(Firsts(front), h);
    }
  }

  /** A host filed last and not before is known as itself. */
  lemma {:induction false} KnownNew(filed: seq<Host>, h: Host)
    requires h.id == [] || !Listed(filed, h.id)
    ensures KnownAs(filed + [h], h) == h && KnownAs(filed, h) == h
  {
    if h.id != [] && filed != [] {
      assert filed[0] in filed;
      assert (filed + [h])[1..] == filed[1..] + [h];
      assert forall f <- filed[1..] :: f in filed;
      KnownNew(filed[1..], h);
    }
  }

  /** At most one of the filed hosts has an id. */
  predicate OneEach(filed: seq<Host>) {
    forall i, j :: 0 <= i < j < |filed| && filed[i].id != [] ==> filed[i].id != filed[j].id
  }

  lemma {:induction false} FirstsOneEach(records: seq<Host>)
    ensures OneEach(Firsts(records))
    ensures forall h <- Firsts(records) :: h in records
    ensures forall h <- records :: h.id != [] ==> Listed(Firsts(records), h.id)
  {
    if records != [] {
      var front, last := records[..|records| - 1], records[|records| - 1];
      FirstsOneEach(front);
      assert records == front + [last];
      var before := Firsts(front);
      if last.id != [] && !Listed(before, last.id) {
        assert forall i :: 0 <= i < |before| ==> before[i] in before;
      }
    }
  }

  // ---------- What the index answers ----------

  /** The hosts filed are those records before which none of their id was read, and those that have none. */
  lemma {:induction false} FirstsExactly(records: seq<Host>, h: Host)
    ensures h in Firsts(records) <==> exists i :: 0 <= i < |records| && records[i] == h && IsFirst(records, i)
  {
    if records != [] {
      var n := |records| - 1;
      var front, last := records[..n], records[n];
      FirstsExactly(front, h);
      FirstsOneEach(front);
      forall i | 0 <= i < n ensures IsFirst(records, i) <==> IsFirst(front, i) {
      }
      LastIsFirst(records);
      if h in Firsts(front) {
        var i :| 0 <= i < n && front[i] == h && IsFirst(front, i);
        assert records[i] == h && IsFirst(records, i);
      }
      if i :| 0 <= i < |records| && records[i] == h && IsFirst(records, i) {
        assert i < n ==> front[i] == h && IsFirst(front, i);
      }
    }
  }

  predicate IsFirst(records: seq<Host>, i: nat)
    requires i < |records|
  {
    records[i].id == [] || forall j :: 0 <= j < i ==> records[j].id != records[i].id
  }

  lemma LastIsFirst(records: seq<Host>)
    requires records != []
    ensures var n := |records| - 1;
            Firsts(records) == if IsFirst(records, n) then Firsts(records[..n]) + [records[n]] else Firsts(records[..n])
  {
    var n := |records| - 1;
    var front, last := records[..n], records[n];
    FirstsOneEach(front);
    if Listed(Firsts(front), last.id) {
      var f :| f in Firsts(front) && f.id == last.id;
      var j :| 0 <= j < n && front[j] == f;
      assert records[j].id == last.id;
    }
    if last.id != [] && !IsFirst(records, n) {
      var j :| 0 <= j < n && records[j].id == last.id;
      assert front[j] in front;
    }
  }

  lemma {:induction false} PickMembers(hosts: seq<Host>, test: Host -> bool)
    ensures forall h :: h in Pick(hosts, test) <==> h in hosts && test(h)
    ensures |Pick(hosts, test)| <= |hosts|
  {
    if hosts != [] {
      PickMembers(hosts[..|hosts| - 1], test);
      assert hosts == hosts[..|hosts| - 1] + [hosts[|hosts| - 1]];
    }
  }

  lemma {:induction false} PickOneEach(hosts: seq<Host>, test: Host -> bool)
    requires OneEach(hosts)
    ensures OneEach(Pick(hosts, test))
  {
    if hosts != [] {
      var front, last := hosts[..|hosts| - 1], hosts[|hosts| - 1];
      PickOneEach(front, test);
      PickMembers(front, test);
      var picked := Pick(front, test);
      forall i | 0 <= i < |picked| && picked[i].id != [] ensures picked[i].id != last.id {
        assert picked[i] in front;
        var j :| 0 <= j < |front| && front[j] == picked[i];
      }
    }
  }

  /**
   * After any pages: under a node of a business are the hosts of that business on that node and no
   * others, each host that has an id exactly once, by the first of its records.
   */
  lemma NodeIndexExactly(builder: IndexBuilder, business: Bytes, node: Bytes)
    requires builder.Valid() && business != [] && BAR !in business
    ensures var under := builder.NodeHosts(NodeKey(business, node));
            && (forall h :: h in under <==> h in Firsts(builder.records) && h.business == business && node in h.nodes)
            && OneEach(under)
  {
    hide IsAt, Firsts, NodeKey, IdentityMap, Pick, OneEach;
    var filed, key := Firsts(builder.records), NodeKey(business, node);
    FirstsOneEach(builder.records);
    PickMembers(filed, h => IsUnder(h, key));
    PickOneEach(filed, h => IsUnder(h, key));
    forall h <- filed ensures IsUnder(h, key) <==> h.business == business && node in h.nodes {
      assert h in builder.records;
      UnderNode(h, business, node);
    }
  }

  lemma UnderNode(h: Host, business: Bytes, node: Bytes)
    requires WellRead(h) && business != [] && BAR !in business
    ensures IsUnder(h, NodeKey(business, node)) <==> h.business == business && node in h.nodes
  {
    hide NodeKey;
    forall n <- h.nodes ensures NodeKey(h.business, n) == NodeKey(business, node) <==> h.business == business && n == node {
      NodeKeysDiffer(h.business, n, business, node);
    }
  }

  /** A node with no host here and hosts anywhere has them under another business. */
  lemma HostedElsewhereExactly(builder: IndexBuilder, business: Bytes, node: Bytes)
    requires builder.Valid() && business != [] && BAR !in business
    ensures builder.NodeHosts(NodeKey(business, node)) == [] && node in builder.hostedNodes <==>
              && (exists h <- Firsts(builder.records) :: h.business != [] && node in h.nodes)
              && forall h <- Firsts(builder.records) :: h.business != [] && node in h.nodes ==> h.business != business
  {
    hide IsAt, IsUnder, Firsts, NodeKey, IdentityMap, UnderKey, WellRead;
    NodeIndexExactly(builder, business, node);
    var under := builder.NodeHosts(NodeKey(business, node));
    if under != [] {
      assert under[0] in under;
    }
  }

  /**
   * After any pages: an address of a tenant counts the hosts of that tenant there that have an id, each
   * once, and names a host exactly when there is one.
   */
  lemma AddressIndexExactly(builder: IndexBuilder, tenant: Bytes, ip: Bytes, cloud: Bytes)
    requires builder.Valid() && tenant != [] && BAR !in ip && BAR !in cloud
    ensures var at := builder.Address(TenantKey(tenant, AddressKey(ip, cloud)));
            var there := HostsThere(builder.records, tenant, ip, cloud);
            && at.count == |there| && OneEach(there)
            && (at.host.Some? <==> |there| == 1)
            && (at.host.Some? ==> there == [at.host.value])
  {
    hide IsUnder, Firsts, IdentityMap, TenantKey, AddressKey, OneEach, Pick;
    var filed, key := Firsts(builder.records), TenantKey(tenant, AddressKey(ip, cloud));
    var test: Host -> bool := (h: Host) => h.id != [] && h.tenant == tenant && h.address == Some((ip, cloud));
    FirstsOneEach(builder.records);
    PickOneEach(filed, test);
    forall h <- filed ensures IsAt(h, key) <==> test(h) {
      assert h in builder.records;
      AtAddress(h, tenant, ip, cloud);
    }
    PickAgrees(filed, h => IsAt(h, key), test);
  }

  lemma AtAddress(h: Host, tenant: Bytes, ip: Bytes, cloud: Bytes)
    requires WellRead(h) && tenant != [] && BAR !in ip && BAR !in cloud
    ensures IsAt(h, TenantKey(tenant, AddressKey(ip, cloud))) <==> h.id != [] && h.tenant == tenant && h.address == Some((ip, cloud))
  {
    hide TenantKey, AddressKey;
    if HasAddress(h) {
      AddressesDiffer(h.tenant, h.address.value.0, h.address.value.1, tenant, ip, cloud);
    }
  }

  lemma {:induction false} PickAgrees(hosts: seq<Host>, a: Host -> bool, b: Host -> bool)
    requires forall h <- hosts :: a(h) <==> b(h)
    ensures Pick(hosts, a) == Pick(hosts, b)
  {
    if hosts != [] {
      var front := hosts[..|hosts| - 1];
      assert forall h <- front :: h in hosts;
      assert hosts[|hosts| - 1] in hosts;
      PickAgrees(front, a, b);
    }
  }
}
