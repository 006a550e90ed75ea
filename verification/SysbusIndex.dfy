/** The subscription index of apps/sysbus/src/local_server.c:51-120 and 232-310. A reference is one
    structure with two nodes: one on the list of its topic, one on the list of its client. List 0 of the
    same array is not a topic; it links the connected clients.
    A predicate compared with `true` in a contract is proved as one fact, not conjunct by conjunct. */
module SysbusIndex {
  import opened Basics
  import opened SysbusList

  const TOPICS: nat := 65536

  /** The lists: one for each packet id and one for each client. */
  datatype Home = Topic(t: nat) | Of(c: Client)

  /** The structure a node is embedded in. */
  datatype Entry = Nothing | Reference(r: Ref) | Connection(c: Client)

  type Node = Link<Entry, Home>

  /** `client_runtime_t` */
  class Client {
    const list: Node
    const refList: Node

    constructor ()
      ensures fresh(list) && fresh(refList) && list != refList && Ring([list]) && Ring([refList])
      ensures list.home == Topic(0) && list.entry == Connection(this)
      ensures refList.home == Of(this) && refList.entry == Nothing
    {
      list := new Link(Nothing, Topic(0));
      refList := new Link(Nothing, Topic(0));
      new;
      list.entry, refList.home := Connection(this), Of(this);
    }
  }

  /** `client_runtime_ref_list_t` */
  class Ref {
    const client: Client
    const list: Node
    const refList: Node

    constructor (client: Client, ghost topic: nat)
      ensures this.client == client && fresh(list) && fresh(refList) && list != refList
      ensures list.home == Topic(topic) && list.entry == Reference(this)
      ensures refList.home == Of(client) && refList.entry == Reference(this)
    {
      this.client := client;
      list := new Link(Nothing, Topic(topic));
      refList := new Link(Nothing, Of(client));
      new;
      list.entry, refList.entry := Reference(this), Reference(this);
    }
  }

  type Rings = map<Home, seq<Node>>

  ghost predicate Homed(n: Node, rings: Rings)
    reads n`home
  {
    n.home in rings && n in rings[n.home]
  }

  /** Every node of `links` is on the list that is its home, and on no other. */
  ghost predicate Members(rings: Rings, links: set<Node>)
    reads links`home
  {
    && (forall h, i {:trigger rings[h][i]} :: h in rings && 0 <= i < |rings[h]| ==>
        rings[h][i] in links && rings[h][i].home == h)
    && (forall n {:trigger Homed(n, rings)} :: n in links ==> Homed(n, rings))
  }

  /** The nodes of each list, in order. */
  ghost predicate Lists(rings: Rings, links: set<Node>)
    reads links
  {
    Members(rings, links) && forall h {:trigger Ring(rings[h])} :: h in rings ==> Ring(rings[h])
  }

  /** The other node of the same reference is on its list too. */
  ghost predicate Paired(r: Ref, links: set<Node>)
    reads links`home, links`entry
  {
    && r.list in links && r.list.entry == Reference(r) && r.list.home.Topic? && 0 < r.list.home.t < TOPICS
    && r.refList in links && r.refList.entry == Reference(r) && r.refList.home == Of(r.client)
  }

  /** The list of references of a client. */
  ghost predicate Anchored(c: Client, links: set<Node>)
    reads links`home, links`entry
  {
    c.refList in links && c.refList.entry == Nothing && c.refList.home == Of(c)
  }

  /** Every client with a list of references is on list 0. */
  ghost predicate Present(rings: Rings, links: set<Node>)
    reads links`home, links`entry
  {
    forall h {:trigger h in rings} :: h in rings && h.Of? ==> OnZero(h.c, links)
  }

  ghost predicate OnZero(c: Client, links: set<Node>)
    reads links`home, links`entry
  {
    c.list in links && c.list.entry == Connection(c) && c.list.home == Topic(0)
  }

  /** Who has subscribed to what, by which reference. */
  type Subs = map<(Client, nat), Ref>

  /** What a node is, by the list it is on. */
  ghost predicate Placed(n: Node, heads: seq<Node>, links: set<Node>, subs: Subs)
    reads n`home, n`entry, links`home, links`entry
  {
    match n.home
    case Topic(t) =>
      && t < |heads|
      && (n == heads[t] || if t == 0 then n.entry.Connection? && n == n.entry.c.list && Anchored(n.entry.c, links)
                           else n.entry.Reference? && n == n.entry.r.list && Listed(n.entry.r, t, links, subs))
    case Of(c) =>
      && Anchored(c, links)
      && (n == c.refList || (n.entry.Reference? && n == n.entry.r.refList && n.entry.r.client == c &&
          Paired(n.entry.r, links)))
  }

  /** The reference by which its client has subscribed to `t`. */
  ghost predicate Listed(r: Ref, t: nat, links: set<Node>, subs: Subs)
    reads links`home, links`entry
  {
    Paired(r, links) && r.list.home == Topic(t) && (r.client, t) in subs && subs[(r.client, t)] == r
  }

  /** Every node is where it belongs, and there is one reference for every subscription. */
  ghost predicate Sound(heads: seq<Node>, links: set<Node>, subs: Subs)
    reads links`home, links`entry
  {
    && |heads| == TOPICS
    && (forall t {:trigger heads[t]} :: 0 <= t < |heads| ==>
        heads[t] in links && heads[t].home == Topic(t) && heads[t].entry == Nothing)
    && (forall n {:trigger Placed(n, heads, links, subs)} :: n in links ==> Placed(n, heads, links, subs))
    && (forall p {:trigger subs[p]} :: p in subs ==> subs[p].client == p.0 && Listed(subs[p], p.1, links, subs))
  }

  /** The first node of a list is its head. */
  ghost predicate HeadsFirst(heads: seq<Node>, rings: Rings) {
    forall h :: h in rings ==>
        |rings[h]| > 0 && if h.Topic? then h.t < |heads| && rings[h][0] == heads[h.t] else rings[h][0] == h.c.refList
  }

  /** The lists with `n` on the list `s`. */
  lemma {:induction false} MembersWith(rings: Rings, links: set<Node>, n: Node, s: seq<Node>)
    requires Members(rings, links) && n.home in rings && n !in links
    requires forall x :: x in s <==> x in rings[n.home] || x == n
    ensures Members(rings[n.home := s], links + {n})
  {
    var rings' := rings[n.home := s];
    forall h, i | h in rings' && 0 <= i < |rings'[h]| ensures rings'[h][i] in links + {n} && rings'[h][i].home == h {
      assert rings'[h][i] in rings'[h];
    }
    forall x | x in links + {n} ensures Homed(x, rings') {
      assert x != n ==> Homed(x, rings);
    }
  }

  lemma {:induction false} MembersWithout(rings: Rings, links: set<Node>, n: Node, s: seq<Node>)
    requires Members(rings, links) && n in links && n.home in rings
    requires forall x :: x in s <==> x in rings[n.home] && x != n
    ensures Members(rings[n.home := s], links - {n})
  {
    var rings' := rings[n.home := s];
    forall h, i | h in rings' && 0 <= i < |rings'[h]| ensures rings'[h][i] in links - {n} && rings'[h][i].home == h {
      assert rings'[h][i] in rings'[h] && rings'[h][i] in rings[h];
    }
    forall x | x in links - {n} ensures Homed(x, rings') {
      assert Homed(x, rings);
    }
  }

  /** The other lists share no node with a list. */
  lemma {:induction false} OtherLists(rings: Rings, links: set<Node>, h: Home)
    requires Members(rings, links) && h in rings
    ensures forall k, x :: k in rings && k != h && x in rings[k] ==> x in links && x !in rings[h]
  {
  }

  lemma {:induction false} WithoutElements<T>(s: seq<T>, i: nat)
    requires i < |s| && forall k, l :: 0 <= k < l < |s| ==> s[k] != s[l]
    ensures forall x :: x in Without(s, i) <==> x in s && x != s[i]
  {
    var t := Without(s, i);
    Gone(s, i);
    forall x | x in s && x != s[i] ensures x in t {
      var j :| 0 <= j < |s| && s[j] == x;
      assert t[if j < i then j else j - 1] == x;
    }
  }

  /** Only the list `h` has changed, and not its head. */
  ghost predicate Changed(rings: Rings, rings': Rings, h: Home) {
    && rings'.Keys == rings.Keys
    && forall k {:trigger rings'[k]} :: k in rings ==>
        (k != h ==> rings'[k] == rings[k]) && (|rings[k]| > 0 ==> |rings'[k]| > 0 && rings'[k][0] == rings[k][0])
  }

  /** A node put in front of its list. */
  method PushFront(l: Node, n: Node, ghost rings: Rings, ghost links: set<Node>) returns (ghost rings': Rings)
    requires Lists(rings, links) && n.home in rings && |rings[n.home]| > 0 && rings[n.home][0] == l && n !in links
    modifies links`next, links`prev, n`head, n`next, n`prev
    ensures Lists(rings', links + {n}) && Changed(rings, rings', n.home)
  {
    ghost var h, s := n.home, rings[n.home];
    ghost var t := [l, n] + s[1..];
    OtherLists(rings, links, h);
    MembersWith(rings, links, n, t);
    assert Ring(s);
    InsertAfter(l, n, s);
    rings' := rings[h := t];
    forall k | k in rings' ensures Ring(rings'[k]) {
      assert k != h ==> old(Ring(rings[k]));
    }
  }

  /** A node put at the end of its list. */
  method PushBack(l: Node, n: Node, ghost rings: Rings, ghost links: set<Node>) returns (ghost rings': Rings)
    requires Lists(rings, links) && n.home in rings && |rings[n.home]| > 0 && rings[n.home][0] == l && n !in links
    modifies links`next, links`prev, n`head, n`next, n`prev
    ensures Lists(rings', links + {n}) && Changed(rings, rings', n.home)
  {
    ghost var h, s := n.home, rings[n.home];
    OtherLists(rings, links, h);
    MembersWith(rings, links, n, s + [n]);
    assert Ring(s);
    InsertBefore(l, n, s);
    rings' := rings[h := s + [n]];
    forall k | k in rings' ensures Ring(rings'[k]) {
      assert k != h ==> old(Ring(rings[k]));
    }
  }

  /** A node taken out of its list. */
  method PullOut(n: Node, ghost rings: Rings, ghost links: set<Node>, ghost i: nat) returns (ghost rings': Rings)
    requires Lists(rings, links) && n.home in rings && 0 < i < |rings[n.home]| && rings[n.home][i] == n
    modifies links`head, links`next, links`prev
    ensures Lists(rings', links - {n}) && Changed(rings, rings', n.home) && rings'[n.home] == Without(rings[n.home], i)
  {
    ghost var h, s := n.home, rings[n.home];
    ghost var t := Without(s, i);
    OtherLists(rings, links, h);
    assert Ring(s);
    WithoutElements(s, i);
    MembersWithout(rings, links, n, t);
    Remove(n, s, i);
    rings' := rings[h := t];
    forall k | k in rings' ensures Ring(rings'[k]) {
      assert k != h ==> old(Ring(rings[k]));
    }
  }

  /** A reference put on the list of its topic and on the list of its client. */
  method PushBoth(l: Node, r: Ref, ghost rings: Rings, ghost links: set<Node>) returns (ghost rings': Rings)
    requires Lists(rings, links) && r.list !in links && r.refList !in links && r.list != r.refList
    requires r.list.home in rings && |rings[r.list.home]| > 0 && rings[r.list.home][0] == l
    requires r.refList.home in rings && |rings[r.refList.home]| > 0 && rings[r.refList.home][0] == r.client.refList
    modifies links`next, links`prev, r.list`head, r.list`next, r.list`prev, r.refList`head, r.refList`next,
        r.refList`prev
    ensures Lists(rings', links + {r.list, r.refList}) && rings'.Keys == rings.Keys
    ensures forall k {:trigger rings'[k]} :: k in rings && |rings[k]| > 0 ==>
        |rings'[k]| > 0 && rings'[k][0] == rings[k][0]
  {
    rings' := PushFront(l, r.list, rings, links);
    rings' := PushFront(r.client.refList, r.refList, rings', links + {r.list});
    assert links + {r.list} + {r.refList} == links + {r.list, r.refList};
  }

  /** A reference taken out of both of its lists. */
  method PullBoth(r: Ref, ghost rings: Rings, ghost links: set<Node>, ghost i: nat, ghost k: nat)
    returns (ghost rings': Rings)
    requires Lists(rings, links) && r.list != r.refList && r.list.home != r.refList.home
    requires r.list.home in rings && 0 < i < |rings[r.list.home]| && rings[r.list.home][i] == r.list
    requires r.refList.home in rings && 0 < k < |rings[r.refList.home]| && rings[r.refList.home][k] == r.refList
    modifies links`head, links`next, links`prev
    ensures Lists(rings', links - {r.list, r.refList}) && rings'.Keys == rings.Keys
    ensures rings'[r.list.home] == Without(rings[r.list.home], i)
    ensures rings'[r.refList.home] == Without(rings[r.refList.home], k)
    ensures forall k {:trigger rings'[k]} :: k in rings && |rings[k]| > 0 ==>
        |rings'[k]| > 0 && rings'[k][0] == rings[k][0]
  {
    rings' := PullOut(r.list, rings, links, i);
    rings' := PullOut(r.refList, rings', links - {r.list}, k);
    assert links - {r.list} - {r.refList} == links - {r.list, r.refList};
  }

  // ----- what the index says -----

  /** A new reference: both of its nodes come in. */
  lemma {:induction false} SoundWith(heads: seq<Node>, links: set<Node>, subs: Subs, r: Ref, t: nat)
    requires Sound(heads, links, subs) && r.list !in links && r.refList !in links && Anchored(r.client, links)
    requires Paired(r, links + {r.list, r.refList}) && r.list.home == Topic(t) && (r.client, t) !in subs
    ensures Sound(heads, links + {r.list, r.refList}, subs[(r.client, t) := r])
  {
    var more, subs' := links + {r.list, r.refList}, subs[(r.client, t) := r];
    forall n | n in more ensures Placed(n, heads, more, subs') {
      if n in links {
        assert Placed(n, heads, links, subs);
      }
    }
    forall p | p in subs' ensures subs'[p].client == p.0 && Listed(subs'[p], p.1, more, subs') {
      if p != (r.client, t) {
        assert Listed(subs[p], p.1, links, subs);
      }
    }
  }

  /** Both nodes of a reference go. */
  lemma {:induction false} SoundWithout(heads: seq<Node>, links: set<Node>, subs: Subs, r: Ref, t: nat)
    requires Sound(heads, links, subs) && Listed(r, t, links, subs)
    ensures Sound(heads, links - {r.list, r.refList}, subs - {(r.client, t)})
  {
    var less, subs' := links - {r.list, r.refList}, subs - {(r.client, t)};
    forall n | n in less ensures Placed(n, heads, less, subs') {
      assert Placed(n, heads, links, subs);
    }
    forall p | p in subs' ensures subs'[p].client == p.0 && Listed(subs'[p], p.1, less, subs') {
      assert Listed(subs[p], p.1, links, subs);
    }
  }

  /** The lists, their nodes and the subscriptions they stand for. */
  datatype State = State(rings: Rings, links: set<Node>, subs: Subs)

  /** The whole state of the index. */
  ghost predicate Good(heads: seq<Node>, st: State)
    reads st.links
  {
    Sound(heads, st.links, st.subs) && Lists(st.rings, st.links) && HeadsFirst(heads, st.rings)
  }

  /** The node at `i` of the list of a topic is a reference, and its client's only one there. */
  lemma {:induction false} OnTopic(heads: seq<Node>, st: State, t: nat, i: nat)
    requires Good(heads, st) && 0 < t < TOPICS && Topic(t) in st.rings && 0 < i < |st.rings[Topic(t)]|
    ensures var n := st.rings[Topic(t)][i];
      n in st.links && n.entry.Reference? && n == n.entry.r.list && Listed(n.entry.r, t, st.links, st.subs)
  {
    var n := st.rings[Topic(t)][i];
    assert Ring(st.rings[Topic(t)]) && Placed(n, heads, st.links, st.subs);
  }

  /** The node at `i` of the list of a client is a reference of that client. */
  lemma {:induction false} OnClient(heads: seq<Node>, st: State, c: Client, i: nat)
    requires Good(heads, st) && Of(c) in st.rings && 0 < i < |st.rings[Of(c)]|
    ensures var n := st.rings[Of(c)][i];
      n in st.links && n.entry.Reference? && n == n.entry.r.refList && n.entry.r.client == c &&
          Paired(n.entry.r, st.links)
  {
    var n := st.rings[Of(c)][i];
    assert Ring(st.rings[Of(c)]) && Placed(n, heads, st.links, st.subs);
  }

  /** A subscription is found on the list of its topic. */
  lemma {:induction false} WhereListed(heads: seq<Node>, st: State, c: Client, t: nat) returns (i: nat)
    requires Good(heads, st) && (c, t) in st.subs
    ensures 0 < t < TOPICS && Topic(t) in st.rings && 0 < i < |st.rings[Topic(t)]|
    ensures st.rings[Topic(t)][i] == st.subs[(c, t)].list
  {
    var n := st.subs[(c, t)].list;
    assert Listed(st.subs[(c, t)], t, st.links, st.subs) && Homed(n, st.rings);
    i :| 0 <= i < |st.rings[Topic(t)]| && st.rings[Topic(t)][i] == n;
    assert st.rings[Topic(t)][0] == heads[t];
  }

  /** Heads stay in front. */
  lemma {:induction false} HeadsStay(heads: seq<Node>, rings: Rings, rings': Rings)
    requires HeadsFirst(heads, rings) && rings'.Keys == rings.Keys
    requires forall k {:trigger rings'[k]} :: k in rings && |rings[k]| > 0 ==>
        |rings'[k]| > 0 && rings'[k][0] == rings[k][0]
    ensures HeadsFirst(heads, rings')
  {
    forall k | k in rings' ensures |rings'[k]| > 0 && rings'[k][0] == rings[k][0] {
      assert k in rings.Keys;
    }
  }

  lemma {:induction false} HeadsMore(heads: seq<Node>, rings: Rings, rings': Rings, c: Client)
    requires HeadsFirst(heads, rings) && rings'.Keys == rings.Keys + {Of(c)} && rings'[Of(c)] == [c.refList]
    requires forall k {:trigger rings'[k]} :: k in rings && |rings[k]| > 0 ==>
        |rings'[k]| > 0 && rings'[k][0] == rings[k][0]
    ensures HeadsFirst(heads, rings')
  {
    forall k | k in rings' && k != Of(c) ensures |rings'[k]| > 0 && k in rings && rings'[k][0] == rings[k][0] {
      assert k in rings.Keys;
    }
  }

  /** The list of a packet id. */
  lemma {:induction false} TopicList(heads: seq<Node>, st: State, t: nat) returns (s: seq<Node>)
    requires Good(heads, st) && t < TOPICS
    ensures Topic(t) in st.rings && s == st.rings[Topic(t)] && Ring(s) && s[0] == heads[t] && heads[t] in st.links
    ensures heads[t].next == if |s| > 1 then s[1] else s[0]
  {
    assert heads[t] in st.links && Homed(heads[t], st.rings);
    s := st.rings[Topic(t)];
    assert Ring(st.rings[Topic(t)]);
    First(s);
  }

  /** The list of a client. */
  lemma {:induction false} ClientList(heads: seq<Node>, st: State, c: Client) returns (s: seq<Node>)
    requires Good(heads, st) && Of(c) in st.rings
    ensures s == st.rings[Of(c)] && Ring(s) && s[0] == c.refList && Anchored(c, st.links)
    ensures c.refList.next == if |s| > 1 then s[1] else s[0]
  {
    s := st.rings[Of(c)];
    assert Ring(st.rings[Of(c)]);
    assert s[0] in st.links && Placed(s[0], heads, st.links, st.subs);
    First(s);
  }

  /** A new reference is linked into both of its lists. */
  method Attach(heads: seq<Node>, r: Ref, t: nat, ghost st: State) returns (ghost st': State)
    requires Good(heads, st) && Of(r.client) in st.rings && 0 < t < TOPICS && (r.client, t) !in st.subs
    requires r.list !in st.links && r.refList !in st.links && r.list != r.refList
    requires r.list.home == Topic(t) && r.list.entry == Reference(r) && r.refList.home == Of(r.client)
    requires r.refList.entry == Reference(r)
    modifies st.links`next, st.links`prev, r.list`head, r.list`next, r.list`prev, r.refList`head, r.refList`next,
        r.refList`prev
    ensures Good(heads, st') && st'.rings.Keys == st.rings.Keys
    ensures st'.links == st.links + {r.list, r.refList} && st'.subs == st.subs[(r.client, t) := r]
  {
    ghost var s := TopicList(heads, st, t);
    s := ClientList(heads, st, r.client);
    SoundWith(heads, st.links, st.subs, r, t);
    ghost var rings' := PushBoth(heads[t], r, st.rings, st.links);
    assert Sound(heads, st.links + {r.list, r.refList}, st.subs[(r.client, t) := r]) == true;
    HeadsStay(heads, st.rings, rings');
    st' := State(rings', st.links + {r.list, r.refList}, st.subs[(r.client, t) := r]);
  }

  /** Nodes of references come and go; the clients on list 0 stay. */
  lemma {:induction false} PresentStays(rings: Rings, links: set<Node>, rings': Rings, links': set<Node>)
    requires Present(rings, links) && rings'.Keys <= rings.Keys
    requires forall n :: n in links && n.entry.Connection? ==> n in links'
    ensures Present(rings', links')
  {
    forall h | h in rings' && h.Of? ensures OnZero(h.c, links') {
      assert h in rings;
    }
  }

  /** A client's new reference to a topic. */
  method NewRef(heads: seq<Node>, cli: Client, t: nat, ghost st: State) returns (ref: Ref, ghost st': State)
    requires Good(heads, st) && Present(st.rings, st.links) && Of(cli) in st.rings && 0 < t < TOPICS
    requires (cli, t) !in st.subs
    modifies st.links`next, st.links`prev
    ensures Good(heads, st') && Present(st'.rings, st'.links) && st'.rings.Keys == st.rings.Keys
    ensures st'.subs == st.subs[(cli, t) := ref]
    ensures forall n :: n in st'.links ==> n in st.links || fresh(n)
  {
    ref := new Ref(cli, t);
    assert Good(heads, st) && Present(st.rings, st.links);
    st' := Attach(heads, ref, t, st);
    PresentStays(st.rings, st.links, st'.rings, st'.links);
  }

  /** Where a reference is on the lists of its topic and of its client. */
  lemma {:induction false} Positions(heads: seq<Node>, st: State, r: Ref) returns (i: nat, k: nat)
    requires Good(heads, st) && Paired(r, st.links)
    ensures r.list.home in st.rings && 0 < i < |st.rings[r.list.home]| && st.rings[r.list.home][i] == r.list
    ensures Of(r.client) in st.rings && 0 < k < |st.rings[Of(r.client)]| && st.rings[Of(r.client)][k] == r.refList
    ensures r.list != r.refList && Listed(r, r.list.home.t, st.links, st.subs)
  {
    var t := r.list.home.t;
    assert Homed(r.list, st.rings) && Homed(r.refList, st.rings);
    assert Placed(r.list, heads, st.links, st.subs) && Placed(r.refList, heads, st.links, st.subs);
    i :| 0 <= i < |st.rings[Topic(t)]| && st.rings[Topic(t)][i] == r.list;
    k :| 0 <= k < |st.rings[Of(r.client)]| && st.rings[Of(r.client)][k] == r.refList;
    assert heads[t].entry == Nothing;
  }

  /** A reference is taken out of both of its lists. */
  method Detach(heads: seq<Node>, r: Ref, ghost st: State, ghost i: nat) returns (ghost st': State)
    requires Good(heads, st) == true && Paired(r, st.links)
    requires r.list.home in st.rings && 0 < i < |st.rings[r.list.home]| && st.rings[r.list.home][i] == r.list
    modifies st.links`head, st.links`next, st.links`prev
    ensures Good(heads, st') == true && st'.rings.Keys == st.rings.Keys
    ensures st'.links == st.links - {r.list, r.refList} && st'.subs == st.subs - {(r.client, r.list.home.t)}
    ensures st'.rings[r.list.home] == Without(st.rings[r.list.home], i)
    ensures Of(r.client) in st.rings && |st'.rings[Of(r.client)]| == |st.rings[Of(r.client)]| - 1
  {
    ghost var j, k := Positions(heads, st, r);
    SoundWithout(heads, st.links, st.subs, r, r.list.home.t);
    ghost var rings' := PullBoth(r, st.rings, st.links, i, k);
    HeadsStay(heads, st.rings, rings');
    st' := State(rings', st.links - {r.list, r.refList}, st.subs - {(r.client, r.list.home.t)});
  }

  // ----- connections -----

  /** A new client comes in. */
  lemma {:induction false} SoundClient(heads: seq<Node>, links: set<Node>, subs: Subs, c: Client)
    requires Sound(heads, links, subs) && c.list !in links && c.refList !in links
    requires Anchored(c, links + {c.list, c.refList}) && OnZero(c, links + {c.list, c.refList})
    ensures Sound(heads, links + {c.list, c.refList}, subs)
  {
    var more := links + {c.list, c.refList};
    forall n | n in more ensures Placed(n, heads, more, subs) {
      assert n in links ==> Placed(n, heads, links, subs);
    }
    forall p | p in subs ensures subs[p].client == p.0 && Listed(subs[p], p.1, more, subs) {
      assert Listed(subs[p], p.1, links, subs);
    }
  }

  /** A client leaves list 0. */
  lemma {:induction false} SoundLeave(heads: seq<Node>, links: set<Node>, subs: Subs, c: Client)
    requires Sound(heads, links, subs) && OnZero(c, links)
    ensures Sound(heads, links - {c.list}, subs)
  {
    var less := links - {c.list};
    forall n | n in less ensures Placed(n, heads, less, subs) {
      assert Placed(n, heads, links, subs);
    }
    forall p | p in subs ensures subs[p].client == p.0 && Listed(subs[p], p.1, less, subs) {
      assert Listed(subs[p], p.1, links, subs);
    }
    assert forall t :: 0 <= t < |heads| ==> heads[t] != c.list;
  }

  /** A client without references, and off list 0, has no subscription. */
  lemma {:induction false} NoneLeft(heads: seq<Node>, st: State, c: Client, t: nat)
    requires Good(heads, st) && Of(c) in st.rings && |st.rings[Of(c)]| == 1
    ensures (c, t) !in st.subs
  {
    if (c, t) in st.subs {
      assert Listed(st.subs[(c, t)], t, st.links, st.subs);
      var i, k := Positions(heads, st, st.subs[(c, t)]);
    }
  }

  lemma {:induction false} SoundForget(heads: seq<Node>, st: State, c: Client)
    requires Good(heads, st) && Of(c) in st.rings && |st.rings[Of(c)]| == 1 && c.list !in st.links
    ensures Sound(heads, st.links - {c.refList}, st.subs)
  {
    var less := st.links - {c.refList};
    var s := ClientList(heads, st, c);
    forall n | n in less ensures Placed(n, heads, less, st.subs) {
      assert Placed(n, heads, st.links, st.subs) && Homed(n, st.rings);
    }
    forall p | p in st.subs ensures st.subs[p].client == p.0 && Listed(st.subs[p], p.1, less, st.subs) {
      assert Listed(st.subs[p], p.1, st.links, st.subs);
      NoneLeft(heads, st, c, p.1);
    }
  }

  /** The lists with a new client: at the end of list 0, and a list of its own. */
  method Enter(heads: seq<Node>, cli: Client, ghost st: State) returns (ghost st': State)
    requires Good(heads, st) && cli.list !in st.links && cli.refList !in st.links && Of(cli) !in st.rings
    requires Ring([cli.refList])
    requires cli.list != cli.refList && cli.list.home == Topic(0) && cli.list.entry == Connection(cli)
    requires cli.refList.home == Of(cli) && cli.refList.entry == Nothing
    modifies st.links`next, st.links`prev, cli.list`head, cli.list`next, cli.list`prev
    ensures Good(heads, st') && st'.rings.Keys == st.rings.Keys + {Of(cli)} && st'.subs == st.subs
    ensures st'.links == st.links + {cli.list, cli.refList}
  {
    ghost var s := TopicList(heads, st, 0);
    SoundClient(heads, st.links, st.subs, cli);
    ghost var rings', more := PushClient(heads[0], cli, st.rings, st.links);
    assert Sound(heads, st.links + {cli.list, cli.refList}, st.subs) == true;
    HeadsMore(heads, st.rings, rings', cli);
    st' := State(rings', more, st.subs);
  }

  /** A new connection. */
  method Arrive(heads: seq<Node>, ghost st: State) returns (cli: Client, ghost st': State)
    requires Good(heads, st) && Present(st.rings, st.links)
    modifies st.links`next, st.links`prev
    ensures Good(heads, st') && Present(st'.rings, st'.links) && fresh(cli) && st'.subs == st.subs
    ensures Of(cli) !in st.rings && st'.rings.Keys == st.rings.Keys + {Of(cli)}
    ensures forall n :: n in st'.links ==> n in st.links || fresh(n)
  {
    cli := new Client();
    assert Good(heads, st) && Present(st.rings, st.links);
    if Of(cli) in st.rings {
      ghost var s := ClientList(heads, st, cli);
    }
    st' := Enter(heads, cli, st);
    forall h | h in st'.rings && h.Of? ensures OnZero(h.c, st'.links) {
      assert h != Of(cli) ==> h in st.rings && OnZero(h.c, st.links);
    }
  }

  method PushClient(l: Node, cli: Client, ghost rings: Rings, ghost links: set<Node>)
    returns (ghost rings': Rings, ghost links': set<Node>)
    requires Lists(rings, links) && cli.list !in links && cli.refList !in links && cli.list != cli.refList
    requires Ring([cli.refList])
    requires cli.list.home in rings && |rings[cli.list.home]| > 0 && rings[cli.list.home][0] == l
    requires cli.refList.home !in rings
    modifies links`next, links`prev, cli.list`head, cli.list`next, cli.list`prev
    ensures Lists(rings', links') && links' == links + {cli.list, cli.refList}
    ensures rings'.Keys == rings.Keys + {cli.refList.home}
    ensures rings'[cli.refList.home] == [cli.refList]
    ensures forall k {:trigger rings'[k]} :: k in rings && |rings[k]| > 0 ==>
        |rings'[k]| > 0 && rings'[k][0] == rings[k][0]
  {
    rings' := PushBack(l, cli.list, rings, links);
    ListsClient(rings', links + {cli.list}, cli.refList);
    rings' := rings'[cli.refList.home := [cli.refList]];
    links' := links + {cli.list, cli.refList};
    assert links + {cli.list} + {cli.refList} == links';
  }

  /** One more list, with its head alone. */
  lemma {:induction false} ListsClient(rings: Rings, links: set<Node>, n: Node)
    requires Lists(rings, links) && n !in links && n.home !in rings && Ring([n])
    ensures Lists(rings[n.home := [n]], links + {n})
  {
    var rings' := rings[n.home := [n]];
    forall h | h in rings' ensures Ring(rings'[h]) {
      assert h != n.home ==> Ring(rings[h]);
    }
    forall x | x in links + {n} ensures Homed(x, rings') {
      assert x != n ==> Homed(x, rings);
    }
    forall h, i | h in rings' && 0 <= i < |rings'[h]| ensures rings'[h][i] in links + {n} && rings'[h][i].home == h {
      assert h != n.home ==> rings[h][i] in links && rings[h][i].home == h;
    }
  }

  /** A list that only has its head goes. */
  lemma {:induction false} ListsForget(rings: Rings, links: set<Node>, n: Node)
    requires Lists(rings, links) && n in links && n.home in rings && rings[n.home] == [n]
    ensures Lists(rings - {n.home}, links - {n})
  {
    var rings' := rings - {n.home};
    forall h | h in rings' ensures Ring(rings'[h]) {
      assert Ring(rings[h]);
    }
    forall x | x in links - {n} ensures Homed(x, rings') {
      assert Homed(x, rings);
    }
    forall h, i | h in rings' && 0 <= i < |rings'[h]| ensures rings'[h][i] in links - {n} && rings'[h][i].home == h {
      assert rings[h][i] in links && rings[h][i].home == h;
    }
  }

  /** A client off list 0 whose list is empty goes. */
  lemma {:induction false} Forget(heads: seq<Node>, st: State, c: Client) returns (st': State)
    requires Good(heads, st) && Of(c) in st.rings && |st.rings[Of(c)]| == 1 && c.list !in st.links
    ensures st' == State(st.rings - {Of(c)}, st.links - {c.refList}, st.subs) && Good(heads, st')
    ensures forall t :: (c, t) !in st.subs
  {
    var s := ClientList(heads, st, c);
    SoundForget(heads, st, c);
    ListsForget(st.rings, st.links, c.refList);
    forall t ensures (c, t) !in st.subs {
      if 0 <= t {
        NoneLeft(heads, st, c, t);
      }
    }
    st' := State(st.rings - {Of(c)}, st.links - {c.refList}, st.subs);
  }

  /** `list_remove(&cli->list)`: the client goes off list 0. */
  method Leave(heads: seq<Node>, cli: Client, ghost st: State) returns (ghost st': State)
    requires Good(heads, st) == true && Of(cli) in st.rings && OnZero(cli, st.links)
    modifies st.links`head, st.links`next, st.links`prev
    ensures Good(heads, st') == true && st'.rings.Keys == st.rings.Keys && st'.subs == st.subs
    ensures st'.links == st.links - {cli.list}
  {
    ghost var s := TopicList(heads, st, 0);
    assert Homed(cli.list, st.rings);
    ghost var i :| 0 <= i < |s| && s[i] == cli.list;
    assert heads[0].entry == Nothing;
    SoundLeave(heads, st.links, st.subs, cli);
    ghost var rings' := PullOut(cli.list, st.rings, st.links, i);
    HeadsStay(heads, st.rings, rings');
    st' := State(rings', st.links - {cli.list}, st.subs);
  }

  /** `list_entry` of a node that is embedded in a reference. */
  function AsRef(n: Node): Ref
    requires n.entry.Reference?
    reads n
  {
    n.entry.r
  }

  /** The walk of `subscribe_pkt` along the list of a topic. */
  method Search(heads: seq<Node>, cli: Client, t: nat, ghost st: State) returns (ref: Ref?)
    requires Good(heads, st) && 0 < t < TOPICS
    ensures ref == null <==> (cli, t) !in st.subs
    ensures ref != null ==> ref == st.subs[(cli, t)]
  {
    ghost var s := TopicList(heads, st, t);
    var n := heads[t].next;
    ghost var i := 1;
    while n != heads[t]
      invariant 1 <= i <= |s| && n == if i < |s| then s[i] else s[0]
      invariant forall k :: 0 < k < i && s[k].entry.Reference? ==> s[k].entry.r.client != cli
      decreases |s| - i
    {
      OnTopic(heads, st, t, i);
      Around(s, i);
      var r := AsRef(n);
      if r.client == cli {
        return r;
      }
      n := n.next;
      i := i + 1;
    }
    NotFound(heads, st, cli, t);
    return null;
  }

  /** A client that no node of the list of a topic refers to has not subscribed to it. */
  lemma {:induction false} NotFound(heads: seq<Node>, st: State, c: Client, t: nat)
    requires Good(heads, st) && Topic(t) in st.rings
    requires forall k :: 0 < k < |st.rings[Topic(t)]| && st.rings[Topic(t)][k].entry.Reference? ==>
        st.rings[Topic(t)][k].entry.r.client != c
    ensures (c, t) !in st.subs
  {
    if (c, t) in st.subs {
      var j := WhereListed(heads, st, c, t);
      OnTopic(heads, st, t, j);
    }
  }

  /** A reference of another client. */
  ghost predicate Anothers(n: Node, cli: Client, links: set<Node>)
    reads links`entry
  {
    n in links && n.entry.Reference? && n.entry.r.client != cli
  }

  /** What the loop of `unsubscribe_pkt` keeps: it is at place `i` of the list as it is now. */
  ghost predicate Passing(heads: seq<Node>, st: State, n: Link?<Entry, Home>, cli: Client, t: nat, i: nat)
    reads st.links
  {
    && Good(heads, st) && Topic(t) in st.rings && 1 <= i <= |st.rings[Topic(t)]|
    && n == (if i < |st.rings[Topic(t)]| then st.rings[Topic(t)][i] else st.rings[Topic(t)][0])
    && forall k :: 0 < k < i ==> Anothers(st.rings[Topic(t)][k], cli, st.links)
  }

  /** The node at the place is a reference; what comes after it. */
  lemma {:induction false} PassHere(heads: seq<Node>, st: State, n: Node, cli: Client, t: nat, i: nat)
    requires Passing(heads, st, n, cli, t, i) && 0 < t < TOPICS && n != heads[t]
    ensures i < |st.rings[Topic(t)]| && n in st.links && n.entry.Reference? && n == n.entry.r.list
    ensures Listed(n.entry.r, t, st.links, st.subs)
    ensures n.next == if i + 1 < |st.rings[Topic(t)]| then st.rings[Topic(t)][i + 1] else st.rings[Topic(t)][0]
    ensures n.entry.r.client != cli ==> Passing(heads, st, n.next, cli, t, i + 1)
  {
    var s := TopicList(heads, st, t);
    OnTopic(heads, st, t, i);
    Around(s, i);
  }

  /** Without the node at the place, the next one moves up to it. */
  lemma {:induction false} PassGone(heads: seq<Node>, s: seq<Node>, st: State, next: Link?<Entry, Home>, cli: Client,
      t: nat, i: nat)
    requires Good(heads, st) && 0 < t < TOPICS && Topic(t) in st.rings && 0 < i < |s|
    requires st.rings[Topic(t)] == Without(s, i)
    requires next == if i + 1 < |s| then s[i + 1] else s[0]
    requires forall k :: 0 < k < i ==> s[k].entry.Reference? && s[k].entry.r.client != cli
    ensures Passing(heads, st, next, cli, t, i)
  {
    var s' := TopicList(heads, st, t);
    forall k | 0 < k < i ensures s'[k] in st.links {
      OnTopic(heads, st, t, k);
    }
  }

  /** One turn of it. */
  method PassOne(heads: seq<Node>, n: Node, cli: Client, t: nat, ghost st: State, ghost i: nat)
    returns (next: Link?<Entry, Home>, gone: bool, ghost st': State, ghost i': nat)
    requires Passing(heads, st, n, cli, t, i) == true && 0 < t < TOPICS && n != heads[t]
    requires Present(st.rings, st.links) == true
    modifies st.links`head, st.links`next, st.links`prev
    ensures Passing(heads, st', next, cli, t, i') == true && |st'.rings[Topic(t)]| - i' < |st.rings[Topic(t)]| - i
    ensures st'.rings.Keys == st.rings.Keys && st'.links <= st.links && Present(st'.rings, st'.links) == true
    ensures gone ==> (cli, t) in st.subs && st'.subs == st.subs - {(cli, t)}
    ensures !gone ==> st'.subs == st.subs
  {
    PassHere(heads, st, n, cli, t, i);
    var r := AsRef(n);
    next, gone := n.next, r.client == cli;
    if !gone {
      st', i' := st, i + 1;
      return;
    }
    st' := Detach(heads, r, st, i);
    i' := i;
    PassGone(heads, st.rings[Topic(t)], st', next, cli, t, i);
    PresentStays(st.rings, st.links, st'.rings, st'.links);
  }

  lemma {:induction false} PassStart(heads: seq<Node>, st: State, cli: Client, t: nat)
    requires Good(heads, st) && t < TOPICS
    ensures heads[t] in st.links && Passing(heads, st, heads[t].next, cli, t, 1)
  {
    var s := TopicList(heads, st, t);
  }

  lemma {:induction false} PassEnd(heads: seq<Node>, st: State, cli: Client, t: nat, i: nat)
    requires t < |heads| && Passing(heads, st, heads[t], cli, t, i)
    ensures (cli, t) !in st.subs
  {
    var s := TopicList(heads, st, t);
    NotFound(heads, st, cli, t);
  }

  /** The loop of `unsubscribe_pkt`. */
  method PassAll(heads: seq<Node>, cli: Client, t: nat, ghost st: State) returns (count: nat, ghost st': State)
    requires Good(heads, st) == true && Present(st.rings, st.links) == true && 0 < t < TOPICS
    modifies st.links`head, st.links`next, st.links`prev
    ensures Good(heads, st') == true && Present(st'.rings, st'.links) == true && st'.rings.Keys == st.rings.Keys
    ensures st'.links <= st.links
    ensures count == (if (cli, t) in st.subs then 1 else 0) && st'.subs == st.subs - {(cli, t)}
  {
    PassStart(heads, st, cli, t);
    var n: Link?<Entry, Home> := heads[t].next;
    ghost var i := 1;
    count, st' := 0, st;
    while n != heads[t]
      invariant Passing(heads, st', n, cli, t, i) == true && Present(st'.rings, st'.links) == true
      invariant st'.rings.Keys == st.rings.Keys && st'.links <= st.links
      invariant count <= 1 && (count == 0 ==> st'.subs == st.subs)
      invariant count == 1 ==> (cli, t) in st.subs && st'.subs == st.subs - {(cli, t)}
      decreases |st'.rings[Topic(t)]| - i
    {
      var gone;
      n, gone, st', i := PassOne(heads, n, cli, t, st', i);
      count := count + if gone then 1 else 0;
    }
    PassEnd(heads, st', cli, t, i);
  }

  /** The subscriptions of the others. */
  ghost function Others(subs: Subs, c: Client): Subs {
    map p | p in subs && p.0 != c :: subs[p]
  }

  lemma {:induction false} OthersWithout(subs: Subs, c: Client, t: nat)
    ensures Others(subs - {(c, t)}, c) == Others(subs, c)
  {
  }

  lemma {:induction false} OthersAll(subs: Subs, c: Client)
    requires forall t :: (c, t) !in subs
    ensures Others(subs, c) == subs
  {
    forall p | p in subs ensures p.0 != c {
      assert p == (p.0, p.1);
    }
  }

  /** The loop of a closed connection: as long as the client has references, the first of them goes. */
  method DropAll(heads: seq<Node>, cli: Client, ghost st: State) returns (ghost st': State)
    requires Good(heads, st) == true && Of(cli) in st.rings
    modifies st.links`head, st.links`next, st.links`prev
    ensures Good(heads, st') == true && st'.rings.Keys == st.rings.Keys && st'.links <= st.links
    ensures |st'.rings[Of(cli)]| == 1
    ensures Others(st'.subs, cli) == Others(st.subs, cli)
    ensures forall n :: n in st.links && n.entry.Connection? ==> n in st'.links
  {
    st' := st;
    ghost var s := ClientList(heads, st', cli);
    var empty := IsEmpty(cli.refList, s);
    while !empty
      invariant Good(heads, st') == true && st'.rings.Keys == st.rings.Keys && st'.links <= st.links
      invariant Of(cli) in st'.rings && (empty <==> |st'.rings[Of(cli)]| == 1)
      invariant Others(st'.subs, cli) == Others(st.subs, cli)
      invariant forall n :: n in st.links && n.entry.Connection? ==> n in st'.links
      decreases |st'.rings[Of(cli)]|
    {
      st' := DropFirst(heads, cli, st');
      s := ClientList(heads, st', cli);
      empty := IsEmpty(cli.refList, s);
    }
  }

  /** The first reference of a client goes. */
  method DropFirst(heads: seq<Node>, cli: Client, ghost st: State) returns (ghost st': State)
    requires Good(heads, st) == true && Of(cli) in st.rings && |st.rings[Of(cli)]| > 1
    modifies st.links`head, st.links`next, st.links`prev
    ensures Good(heads, st') == true && st'.rings.Keys == st.rings.Keys && st'.links <= st.links
    ensures |st'.rings[Of(cli)]| == |st.rings[Of(cli)]| - 1 && Others(st'.subs, cli) == Others(st.subs, cli)
    ensures forall n :: n in st.links && n.entry.Connection? ==> n in st'.links
  {
    ghost var s := ClientList(heads, st, cli);
    OnClient(heads, st, cli, 1);
    var r := AsRef(cli.refList.next);
    ghost var i, k := Positions(heads, st, r);
    st' := Detach(heads, r, st, i);
    OthersWithout(st.subs, cli, r.list.home.t);
  }

  /** `dispatch_pkt`: the clients written to, in order. */
  method Dispatch(heads: seq<Node>, t: nat, ghost st: State) returns (visited: seq<Client>)
    requires Good(heads, st) && 0 < t < TOPICS
    ensures forall i, j :: 0 <= i < j < |visited| ==> visited[i] != visited[j]
    ensures forall c :: c in visited <==> (c, t) in st.subs
  {
    ghost var s := TopicList(heads, st, t);
    var n := heads[t].next;
    visited := [];
    while n != heads[t]
      invariant |visited| < |s| && n == (if |visited| + 1 < |s| then s[|visited| + 1] else s[0])
      invariant forall k :: 0 < k <= |visited| ==> s[k].entry.Reference? && visited[k - 1] == s[k].entry.r.client
      decreases |s| - |visited|
    {
      ghost var k := |visited| + 1;
      OnTopic(heads, st, t, k);
      Around(s, k);
      visited := visited + [AsRef(n).client];
      n := n.next;
    }
    Visited(heads, st, t, visited);
  }

  lemma {:induction false} Visited(heads: seq<Node>, st: State, t: nat, visited: seq<Client>)
    requires Good(heads, st) && 0 < t < TOPICS && Topic(t) in st.rings && |visited| == |st.rings[Topic(t)]| - 1
    requires forall k :: 0 < k <= |visited| ==>
        st.rings[Topic(t)][k].entry.Reference? && visited[k - 1] == st.rings[Topic(t)][k].entry.r.client
    ensures forall i, j :: 0 <= i < j < |visited| ==> visited[i] != visited[j]
    ensures forall c :: c in visited <==> (c, t) in st.subs
  {
    forall i, j | 0 <= i < j < |visited| ensures visited[i] != visited[j] {
      OncePerTopic(heads, st, t, i + 1, j + 1);
    }
    forall i | 0 <= i < |visited| ensures (visited[i], t) in st.subs {
      OnTopic(heads, st, t, i + 1);
      assert visited[i + 1 - 1] == st.rings[Topic(t)][i + 1].entry.r.client;
    }
    forall c | (c, t) in st.subs ensures c in visited {
      var j := WhereListed(heads, st, c, t);
      OnTopic(heads, st, t, j);
      assert visited[j - 1] == c;
    }
  }

  /** No client is twice on the list of a topic. */
  lemma {:induction false} OncePerTopic(heads: seq<Node>, st: State, t: nat, i: nat, j: nat)
    requires Good(heads, st) && 0 < t < TOPICS && Topic(t) in st.rings && 0 < i < j < |st.rings[Topic(t)]|
    ensures var s :=
        st.rings[Topic(t)]; s[i].entry.Reference? && s[j].entry.Reference? && s[i].entry.r.client != s[j].entry.r.client
  {
    OnTopic(heads, st, t, i);
    OnTopic(heads, st, t, j);
    assert Ring(st.rings[Topic(t)]);
  }

  /** A node embedded in a reference is on its list only together with the other node of it. */
  lemma {:induction false} BothOrNeither(heads: seq<Node>, st: State, n: Node)
    requires Good(heads, st) && n in st.links && n.entry.Reference?
    ensures var r := n.entry.r; (n == r.list || n == r.refList) && Paired(r, st.links)
    ensures var r := n.entry.r; (r.client, r.list.home.t) in st.subs && st.subs[(r.client, r.list.home.t)] == r
  {
    assert Placed(n, heads, st.links, st.subs);
    assert Placed(n.entry.r.list, heads, st.links, st.subs);
    if n.home.Topic? {
      assert heads[n.home.t].entry == Nothing;
    }
    var t := n.entry.r.list.home.t;
    assert heads[t].entry == Nothing;
  }

  /** Walking list `t` as a list of references, as `subscribe_pkt` does for any id, meets only references
      exactly when `t` is not 0 or nobody is connected. A client that sends the id 0 is connected. */
  lemma {:induction false} OnlyReferences(heads: seq<Node>, st: State, t: nat)
    requires Good(heads, st) && Present(st.rings, st.links) && t < TOPICS && Topic(t) in st.rings
    ensures (forall i :: 0 < i < |st.rings[Topic(t)]| ==> st.rings[Topic(t)][i].entry.Reference?) <==>
        t != 0 || forall h :: h in st.rings ==> h.Topic?
  {
    var s := TopicList(heads, st, t);
    if t != 0 {
      forall i | 0 < i < |s| ensures s[i].entry.Reference? {
        OnTopic(heads, st, t, i);
      }
    } else {
      if |s| > 1 {
        var c := ZeroNode(heads, st, 1);
      }
      if h :| h in st.rings && h.Of? {
        assert OnZero(h.c, st.links) && Homed(h.c.list, st.rings);
        var i :| 0 <= i < |s| && s[i] == h.c.list;
        assert heads[0].entry == Nothing;
      }
    }
  }

  /** A node of list 0 is embedded in a connected client. */
  lemma {:induction false} ZeroNode(heads: seq<Node>, st: State, i: nat) returns (c: Client)
    requires Good(heads, st) && Topic(0) in st.rings && 0 < i < |st.rings[Topic(0)]|
    ensures st.rings[Topic(0)][i].entry == Connection(c) && Of(c) in st.rings
  {
    var n := st.rings[Topic(0)][i];
    assert Ring(st.rings[Topic(0)]) && Placed(n, heads, st.links, st.subs);
    c := n.entry.c;
    assert Homed(c.refList, st.rings);
  }

  /** The end of a connection. */
  method Depart(heads: seq<Node>, cli: Client, ghost st: State) returns (ghost st': State)
    requires Good(heads, st) == true && Present(st.rings, st.links) == true && Of(cli) in st.rings
    modifies st.links`head, st.links`next, st.links`prev
    ensures Good(heads, st') == true && Present(st'.rings, st'.links) == true && st'.links <= st.links
    ensures st'.rings.Keys == st.rings.Keys - {Of(cli)} && st'.subs == Others(st.subs, cli)
  {
    assert OnZero(cli, st.links);
    ghost var left := Leave(heads, cli, st);
    ghost var alone := DropAll(heads, cli, left);
    st' := Departed(heads, alone, cli, st);
  }

  /** The client is off list 0 and has no reference any more. */
  lemma {:induction false} Departed(heads: seq<Node>, alone: State, c: Client, st: State) returns (st': State)
    requires Good(heads, alone) && Of(c) in alone.rings && |alone.rings[Of(c)]| == 1 && c.list !in alone.links
    requires Present(st.rings, st.links) && alone.rings.Keys == st.rings.Keys && alone.links <= st.links
    requires Others(alone.subs, c) == Others(st.subs, c)
    requires forall n :: n in st.links && n.entry.Connection? && n.entry.c != c ==> n in alone.links
    ensures Good(heads, st') && Present(st'.rings, st'.links) && st'.links <= st.links
    ensures st'.rings.Keys == st.rings.Keys - {Of(c)} && st'.subs == Others(st.subs, c)
  {
    var anchor := ClientList(heads, alone, c);
    st' := Forget(heads, alone, c);
    OthersAll(alone.subs, c);
    StillPresent(st.rings, st.links, c, st'.rings, st'.links);
  }

  /** The other clients stay on list 0. */
  lemma {:induction false} StillPresent(rings: Rings, links: set<Node>, c: Client, rings': Rings, links': set<Node>)
    requires Present(rings, links) && rings'.Keys == rings.Keys - {Of(c)}
    requires forall n :: n in links && n.entry.Connection? && n.entry.c != c ==> n in links'
    ensures Present(rings', links')
  {
    forall h | h in rings' && h.Of? ensures OnZero(h.c, links') {
      assert h in rings.Keys && h != Of(c);
    }
  }

  /** A client with each of the first `n` ids. */
  ghost function All(c: Client, ids: seq<nat>, n: nat): set<(Client, nat)>
    requires n <= |ids|
  {
    if n == 0 then {} else All(c, ids, n - 1) + {(c, ids[n - 1])}
  }

  /** Nobody has subscribed to id 0. */
  lemma {:induction false} ZeroFree(heads: seq<Node>, st: State, c: Client)
    requires Good(heads, st)
    ensures (c, 0) !in st.subs
  {
    forall p | p in st.subs ensures p.1 != 0 {
      assert Listed(st.subs[p], p.1, st.links, st.subs);
    }
  }

  /** `subscribe_pkt` */
  method Join(heads: seq<Node>, cli: Client, t: nat, memory: bool, ghost st: State)
    returns (ref: Ref?, ghost st': State)
    requires Good(heads, st) && Present(st.rings, st.links) && Of(cli) in st.rings && 0 < t < TOPICS
    modifies st.links`next, st.links`prev
    ensures Good(heads, st') && Present(st'.rings, st'.links) && st'.rings.Keys == st.rings.Keys
    ensures forall n :: n in st'.links ==> n in st.links || fresh(n)
    ensures ref == null <==> !memory && (cli, t) !in st.subs
    ensures st'.subs == if ref == null then st.subs else st.subs[(cli, t) := ref]
  {
    ref := Search(heads, cli, t, st);
    st' := st;
    if ref == null && memory {
      ref, st' := NewRef(heads, cli, t, st);
    }
  }

  lemma {:induction false} KeysWith(start: set<(Client, nat)>, subs: Subs, p: (Client, nat), ref: Ref,
      done: set<(Client, nat)>)
    requires subs.Keys == start + done
    ensures subs[p := ref].Keys == start + (done + {p})
  {
  }

  lemma {:induction false} MapWithout(start: Subs, p: (Client, nat), done: set<(Client, nat)>)
    ensures start - done - {p} == start - (done + {p})
    ensures p !in start - done ==> start - (done + {p}) == start - done
  {
  }

  /** The client has subscribed to the first `n` ids. */
  ghost predicate Joined(heads: seq<Node>, start: State, st: State, c: Client, ids: seq<nat>, n: nat)
    reads st.links
  {
    && Good(heads, st) && Present(st.rings, st.links) && Of(c) in st.rings && st.rings.Keys == start.rings.Keys
    && n <= |ids| && st.subs.Keys == start.subs.Keys + All(c, ids, n)
  }

  method JoinNext(heads: seq<Node>, cli: Client, ids: seq<nat>, n: nat, ghost start: State, ghost st: State)
    returns (ghost st': State)
    requires Joined(heads, start, st, cli, ids, n) && n < |ids| && 0 < ids[n] < TOPICS
    modifies st.links`next, st.links`prev
    ensures Joined(heads, start, st', cli, ids, n + 1) && forall n :: n in st'.links ==> n in st.links || fresh(n)
  {
    var ref;
    ref, st' := Join(heads, cli, ids[n], true, st);
    KeysWith(start.subs.Keys, st.subs, (cli, ids[n]), ref, All(cli, ids, n));
  }

  /** The loop over the ids of a subscribe packet. */
  method JoinAll(heads: seq<Node>, cli: Client, ids: seq<nat>, ghost st: State) returns (ghost st': State)
    requires Good(heads, st) && Present(st.rings, st.links) && Of(cli) in st.rings
    requires forall i :: 0 <= i < |ids| ==> 0 < ids[i] < TOPICS
    modifies st.links`next, st.links`prev
    ensures Joined(heads, st, st', cli, ids, |ids|) && forall n :: n in st'.links ==> n in st.links || fresh(n)
  {
    var i := 0;
    st' := st;
    while i < |ids|
      invariant i <= |ids| && Joined(heads, st, st', cli, ids, i) == true
      invariant forall n :: n in st'.links ==> n in st.links || fresh(n)
    {
      st' := JoinNext(heads, cli, ids, i, st, st');
      i := i + 1;
    }
  }

  /** The loop over the ids of an unsubscribe packet. */
  method PassEvery(heads: seq<Node>, cli: Client, ids: seq<nat>, ghost st: State) returns (ghost st': State)
    requires Good(heads, st) && Present(st.rings, st.links) && forall i :: 0 <= i < |ids| ==> ids[i] < TOPICS
    modifies st.links`head, st.links`next, st.links`prev
    ensures Good(heads, st') && Present(st'.rings, st'.links) && st'.rings.Keys == st.rings.Keys
    ensures st'.links <= st.links
    ensures st'.subs == st.subs - All(cli, ids, |ids|)
  {
    var i := 0;
    st' := st;
    while i < |ids|
      invariant i <= |ids| && Good(heads, st') && Present(st'.rings, st'.links)
      invariant st'.rings.Keys == st.rings.Keys && st'.links <= st.links
      invariant st'.subs == st.subs - All(cli, ids, i)
    {
      MapWithout(st.subs, (cli, ids[i]), All(cli, ids, i));
      if ids[i] != 0 {
        var count;
        count, st' := PassAll(heads, cli, ids[i], st');
      } else {
        ZeroFree(heads, st', cli);
      }
      i := i + 1;
    }
  }

  /** The lists of a new server: each has its head only. */
  ghost function Empty(heads: seq<Node>): State {
    State(map t: nat | t < |heads| :: Topic(t) := [heads[t]], set t | 0 <= t < |heads| :: heads[t], map[])
  }

  ghost predicate Initial(heads: seq<Node>, t: nat)
    reads heads
  {
    t < |heads| && Ring([heads[t]]) && heads[t].home == Topic(t) && heads[t].entry == Nothing
  }

  lemma {:induction false} EmptyGood(heads: seq<Node>)
    requires |heads| == TOPICS && forall t :: 0 <= t < TOPICS ==> Initial(heads, t)
    ensures Good(heads, Empty(heads)) && Present(Empty(heads).rings, Empty(heads).links)
  {
    var st := Empty(heads);
    forall n | n in st.links ensures Homed(n, st.rings) && Placed(n, heads, st.links, st.subs) {
      var t :| 0 <= t < |heads| && heads[t] == n;
      assert Initial(heads, t);
    }
    forall h | h in st.rings ensures h.Topic? && h.t < |heads| && st.rings[h] == [heads[h.t]] && Ring(st.rings[h]) {
      assert Initial(heads, h.t);
    }
    forall t | 0 <= t < |heads| ensures heads[t].home == Topic(t) && heads[t].entry == Nothing {
      assert Initial(heads, t);
    }
  }

  /** `list_init` of every head. */
  method MakeHeads() returns (heads: seq<Node>)
    ensures |heads| == TOPICS && fresh(heads) && forall t :: 0 <= t < TOPICS ==> Initial(heads, t)
  {
    heads := [];
    while |heads| < TOPICS
      invariant |heads| <= TOPICS && fresh(heads)
      invariant forall t :: 0 <= t < |heads| ==>
          Ring([heads[t]]) && heads[t].home == Topic(t) && heads[t].entry == Nothing
      decreases TOPICS - |heads|
    {
      var n := new Link(Nothing, Topic(|heads|));
      heads := heads + [n];
    }
  }

  class Server {
    const heads: seq<Node>
    ghost var st: State

    ghost predicate Valid()
      reads this, st.links
    {
      Good(heads, st) && Present(st.rings, st.links)
    }

    /** `local_server_start`: nobody is connected. */
    constructor ()
      ensures Valid() && fresh(st.links) && st.subs == map[] && forall h :: h in st.rings ==> h.Topic?
    {
      var made := MakeHeads();
      heads := made;
      new;
      st := Empty(heads);
      EmptyGood(heads);
    }

    /** `listen_fd_rd_callback`: a new client goes to the end of list 0. */
    method Connect() returns (cli: Client)
      requires Valid()
      modifies this, st.links`next, st.links`prev
      ensures Valid() && fresh(cli) && Of(cli) !in old(st.rings) && st.rings.Keys == old(st.rings.Keys) + {Of(cli)}
      ensures st.subs == old(st.subs)
      ensures forall n :: n in st.links ==> n in old(st.links) || fresh(n)
    {
      cli, st := Arrive(heads, st);
    }

    /** `subscribe_pkt`: nothing for a client that is there already. `memory` says whether `malloc` succeeds. */
    method Subscribe(cli: Client, t: nat, memory: bool) returns (ref: Ref?)
      requires Valid() && Of(cli) in st.rings && 0 < t < TOPICS
      modifies this, st.links`next, st.links`prev
      ensures Valid() && st.rings.Keys == old(st.rings.Keys)
      ensures forall n :: n in st.links ==> n in old(st.links) || fresh(n)
      ensures ref == null <==> !memory && (cli, t) !in old(st.subs)
      ensures st.subs == if ref == null then old(st.subs) else old(st.subs)[(cli, t) := ref]
    {
      ref, st := Join(heads, cli, t, memory, st);
    }

    /** `unsubscribe_pkt`: the reference of a client in a topic goes, if it has one. */
    method Unsubscribe(cli: Client, t: nat) returns (count: nat)
      requires Valid() && 0 < t < TOPICS
      modifies this, st.links`head, st.links`next, st.links`prev
      ensures Valid() && st.rings.Keys == old(st.rings.Keys) && st.links <= old(st.links)
      ensures count == (if (cli, t) in old(st.subs) then 1 else 0) && st.subs == old(st.subs) - {(cli, t)}
    {
      count, st := PassAll(heads, cli, t, st);
    }

    /** The loop over the ids of a subscribe packet, which passes every id on; none of them may be 0. */
    method SubscribeAll(cli: Client, ids: seq<nat>)
      requires Valid() && Of(cli) in st.rings && forall i :: 0 <= i < |ids| ==> 0 < ids[i] < TOPICS
      modifies this, st.links`next, st.links`prev
      ensures Valid() && st.rings.Keys == old(st.rings.Keys)
      ensures forall n :: n in st.links ==> n in old(st.links) || fresh(n)
      ensures st.subs.Keys == old(st.subs.Keys) + All(cli, ids, |ids|)
    {
      st := JoinAll(heads, cli, ids, st);
    }

    /** The loop over the ids of an unsubscribe packet, which passes over id 0. */
    method UnsubscribeAll(cli: Client, ids: seq<nat>)
      requires Valid() && forall i :: 0 <= i < |ids| ==> ids[i] < TOPICS
      modifies this, st.links`head, st.links`next, st.links`prev
      ensures Valid() && st.rings.Keys == old(st.rings.Keys) && st.links <= old(st.links)
      ensures st.subs == old(st.subs) - All(cli, ids, |ids|)
    {
      st := PassEvery(heads, cli, ids, st);
    }

    /** The end of a connection: the client goes off list 0, and every reference of it off both lists. */
    method Disconnect(cli: Client)
      requires Valid() && Of(cli) in st.rings
      modifies this, st.links`head, st.links`next, st.links`prev
      ensures Valid() && st.rings.Keys == old(st.rings.Keys) - {Of(cli)} && st.links <= old(st.links)
      ensures st.subs == Others(old(st.subs), cli)
    {
      st := Depart(heads, cli, st);
    }

    /** What becomes of a packet: nothing for id 0, otherwise every subscriber gets it once. */
    method Forward(id: nat) returns (visited: seq<Client>)
      requires Valid() && id < TOPICS
      ensures forall i, j :: 0 <= i < j < |visited| ==> visited[i] != visited[j]
      ensures forall c :: c in visited <==> id != 0 && (c, id) in st.subs
    {
      visited := [];
      if id != 0 {
        visited := Dispatch(heads, id, st);
      }
    }
  }
}
