/**
 The client registry of the server: the clients by identifier, two indexes kept
 beside them, and the file that they are saved to and reloaded from.
 */
module Registry {
  import opened Words
  import opened Names

  datatype Client = Client(id: string, name: string, mac: string, token: string, lastSeen: int, createdAt: int)

  type Clients = map<string, Client>
  type Index = map<string, string>

  // ---- What the maps have to do with one another --------------------------

  // Every client is filed under its identifier, which was issued for a number
  // up to `last`, with a normalised address and a token.
  ghost predicate Filed(clients: Clients, last: nat) {
    forall id :: id in clients ==>
      && clients[id].id == id && Issued(id, last)
      && clients[id].mac != "" && Normal(clients[id].mac) == clients[id].mac && clients[id].token != ""
  }

  ghost predicate Issued(id: string, last: nat) {
    1 <= IdSeq(id) <= last && id == ClientId(IdSeq(id))
  }

  // The index is the exact inverse of the clients' addresses.
  ghost predicate ByMac(clients: Clients, byMac: Index) {
    && (forall id :: id in clients ==> clients[id].mac in byMac && byMac[clients[id].mac] == id)
    && (forall mac :: mac in byMac ==> byMac[mac] in clients && clients[byMac[mac]].mac == mac)
  }

  ghost predicate ByToken(clients: Clients, byToken: Index) {
    && (forall id :: id in clients ==> clients[id].token in byToken && byToken[clients[id].token] == id)
    && (forall token :: token in byToken ==> byToken[token] in clients && clients[byToken[token]].token == token)
  }

  // There is only one such index, so it does not matter in which order it is
  // built.
  lemma ByMacUnique(clients: Clients, a: Index, b: Index)
    requires ByMac(clients, a) && ByMac(clients, b)
    ensures a == b
  {
    assert forall mac :: mac in a ==> mac in b && a[mac] == b[mac];
    assert forall mac :: mac in b ==> mac in a;
  }

  lemma ByTokenUnique(clients: Clients, a: Index, b: Index)
    requires ByToken(clients, a) && ByToken(clients, b)
    ensures a == b
  {
    assert forall token :: token in a ==> token in b && a[token] == b[token];
    assert forall token :: token in b ==> token in a;
  }

  // Two clients differ in their address and in their token.
  ghost predicate Distinct(clients: Clients) {
    forall i, j :: i in clients && j in clients && i != j ==>
      clients[i].mac != clients[j].mac && clients[i].token != clients[j].token
  }

  lemma IndexedDistinct(clients: Clients, byMac: Index, byToken: Index)
    requires ByMac(clients, byMac) && ByToken(clients, byToken)
    ensures Distinct(clients)
  {
  }

  // A later state of the same clients
  ghost predicate Extends(old_: Clients, clients: Clients) {
    forall id :: id in old_ ==> id in clients && clients[id].mac == old_[id].mac && clients[id].token == old_[id].token
  }

  // The identifiers given out are saved, each for its address.
  ghost predicate Kept(given: Index, saved: Clients) {
    forall id :: id in given ==> id in saved && saved[id].mac == given[id]
  }

  // ---- Each change keeps that ---------------------------------------------

  // A client is seen again, perhaps under a new name.
  function Touched(clients: Clients, id: string, name: string, now: int): Clients
    requires id in clients
  {
    var c := clients[id];
    clients[id := c.(name := if name != "" then name else c.name, lastSeen := now)]
  }

  lemma TouchedKeeps(clients: Clients, byMac: Index, byToken: Index, last: nat, id: string, name: string, now: int)
    requires id in clients && Filed(clients, last) && ByMac(clients, byMac) && ByToken(clients, byToken)
    ensures var t := Touched(clients, id, name, now);
            Filed(t, last) && ByMac(t, byMac) && ByToken(t, byToken) && Extends(clients, t)
  {
    hide Filed, ByMac, ByToken, Extends;
    var t := Touched(clients, id, name, now);
    FiledAlike(clients, t, last);
    ByMacAlike(clients, t, byMac);
    ByTokenAlike(clients, t, byToken);
    ExtendsAlike(clients, t);
  }

  // The same clients, but for names and times
  ghost predicate Alike(a: Clients, b: Clients) {
    && (forall id :: id in a <==> id in b)
    && forall id :: id in a ==> a[id].id == b[id].id && a[id].mac == b[id].mac && a[id].token == b[id].token
  }

  lemma FiledAlike(a: Clients, b: Clients, last: nat)
    requires Alike(a, b) && Filed(a, last)
    ensures Filed(b, last)
  {
    hide Issued, Normal;
  }

  lemma ByMacAlike(a: Clients, b: Clients, byMac: Index)
    requires Alike(a, b) && ByMac(a, byMac)
    ensures ByMac(b, byMac)
  {
  }

  lemma ByTokenAlike(a: Clients, b: Clients, byToken: Index)
    requires Alike(a, b) && ByToken(a, byToken)
    ensures ByToken(b, byToken)
  {
  }

  lemma ExtendsAlike(a: Clients, b: Clients)
    requires Alike(a, b)
    ensures Extends(a, b)
  {
  }

  lemma ExtendsBoth(a: Clients, b: Clients, c: Clients)
    requires Extends(a, b) && Extends(b, c)
    ensures Extends(a, c)
  {
  }

  lemma KeptBoth(given: Index, a: Clients, b: Clients)
    requires Kept(given, a) && Extends(a, b)
    ensures Kept(given, b)
  {
  }

  lemma FiledLater(clients: Clients, last: nat)
    requires Filed(clients, last)
    ensures Filed(clients, last + 1) && ClientId(last + 1) !in clients
  {
    hide Issued, Normal, ClientId;
    NotIssued(last);
    forall id | id in clients
      ensures Issued(id, last + 1)
    {
      IssuedLater(id, last);
    }
  }

  lemma IssuedLater(id: string, last: nat)
    requires Issued(id, last)
    ensures Issued(id, last + 1)
  {
    hide IdSeq, ClientId;
  }

  lemma NotIssued(last: nat)
    ensures !Issued(ClientId(last + 1), last)
  {
    hide IdSeq, ClientId;
    IdSeqOfClientId(last + 1);
  }

  // A new client, with an address and a token that no other client has
  lemma AddedKeeps(clients: Clients, byMac: Index, byToken: Index, last: nat, c: Client)
    requires Filed(clients, last) && ByMac(clients, byMac) && ByToken(clients, byToken)
    requires last >= 1 && c.id == ClientId(last) && c.id !in clients && c.mac !in byMac && c.token !in byToken
    requires c.mac != "" && Normal(c.mac) == c.mac && c.token != ""
    ensures Extends(clients, clients[c.id := c]) && Filed(clients[c.id := c], last)
    ensures ByMac(clients[c.id := c], byMac[c.mac := c.id]) && ByToken(clients[c.id := c], byToken[c.token := c.id])
  {
    hide Normal, IdSeq, ClientId;
    IdSeqOfClientId(last);
    assert Issued(c.id, last);
  }

  // An identifier is given out for the address of its client.
  lemma GivenKeeps(given: Index, saved: Clients, id: string, mac: string)
    requires Kept(given, saved) && id in saved && saved[id].mac == mac
    ensures Kept(given[id := mac], saved) && (id in given ==> given[id] == mac)
  {
  }

  lemma GivenFiled(given: Index, saved: Clients, clients: Clients, id: string)
    requires Kept(given, saved) && Extends(saved, clients) && id !in clients
    ensures id !in given && id !in saved
  {
  }

  // ---- The registry -------------------------------------------------------

  datatype Reply = Failed | Unknown | Found(client: Client, created: bool)

  class Registry {
    var clients: Clients
    var byMac: Index
    var byToken: Index
    var last: nat
    var saved: Clients
    // The address that each identifier given out was given out for
    ghost var given: Index

    ghost predicate Valid()
      reads this
    {
      && Filed(clients, last) && ByMac(clients, byMac) && ByToken(clients, byToken)
      && Filed(saved, last) && Distinct(saved) && Extends(saved, clients) && Kept(given, saved)
    }

    constructor ()
      ensures Valid() && clients == map[] && saved == map[] && given == map[]
    {
      clients, byMac, byToken, last, saved, given := map[], map[], map[], 0, map[], map[];
    }

    // persistLocked(), which may fail
    method Persist(ok: bool)
      requires Valid()
      modifies this`saved
      ensures Valid() && saved == (if ok then clients else old(saved))
    {
      hide Filed, ByMac, ByToken, Distinct, Extends, Kept;
      if ok {
        IndexedDistinct(clients, byMac, byToken);
        KeptBoth(given, saved, clients);
        ExtendsSelf(clients);
        saved := clients;
      }
    }

    // A known client is seen again.
    method Touch(id: string, name: string, now: int)
      requires Valid() && id in clients
      modifies this`clients
      ensures Valid() && clients == Touched(old(clients), id, name, now) && Extends(old(clients), clients)
    {
      hide Filed, ByMac, ByToken, Distinct, Extends, Kept;
      TouchedKeeps(clients, byMac, byToken, last, id, name, now);
      ExtendsBoth(saved, clients, Touched(clients, id, name, now));
      var c := clients[id];
      if name != "" {
        c := c.(name := name);
      }
      c := c.(lastSeen := now);
      clients := clients[id := c];
    }

    // The next number, whether or not it comes to be used
    method NextNumber()
      requires Valid()
      modifies this`last
      ensures Valid() && last == old(last) + 1
      ensures ClientId(last) !in clients && ClientId(last) !in given
    {
      hide Filed, ByMac, ByToken, Distinct, Extends, Kept, ClientId;
      FiledLater(clients, last);
      FiledLater(saved, last);
      last := last + 1;
      GivenFiled(given, saved, clients, ClientId(last));
    }

    method Add(c: Client)
      requires Valid() && last >= 1 && c.id == ClientId(last) && c.id !in clients
      requires c.mac !in byMac && c.token !in byToken && c.mac != "" && Normal(c.mac) == c.mac && c.token != ""
      modifies this`clients, this`byMac, this`byToken
      ensures Valid() && clients == old(clients)[c.id := c] && Extends(old(clients), clients)
      ensures byMac == old(byMac)[c.mac := c.id] && byToken == old(byToken)[c.token := c.id]
    {
      hide Filed, ByMac, ByToken, Distinct, Extends, Kept, ClientId, Normal;
      AddedKeeps(clients, byMac, byToken, last, c);
      ExtendsBoth(saved, clients, clients[c.id := c]);
      clients := clients[c.id := c];
      byMac := byMac[c.mac := c.id];
      byToken := byToken[c.token := c.id];
    }

    // Register()
    method Register(name: string, mac: string, now: int, token: Option<string>, ok: bool) returns (r: Reply)
      requires Valid() && (token.Some? ==> token.value != "" && token.value !in byToken)
      modifies this
      ensures Valid() && Extends(old(clients), clients)
      ensures Normal(mac) == "" ==> r == Failed && unchanged(this)
      ensures r.Found? ==> ok && r.client.mac == Normal(mac) && r.client.id in saved && saved[r.client.id] == r.client
      ensures r.Found? ==> (r.created <==> Normal(mac) !in old(byMac))
      ensures r.Found? && r.created ==> r.client.id !in old(clients) && r.client.id !in old(given)
      ensures r.Found? && r.client.id in old(given) ==> old(given)[r.client.id] == Normal(mac)
      ensures r.Found? ==> given == old(given)[r.client.id := Normal(mac)]
      ensures !r.Found? ==> given == old(given)
      // When it succeeds
      ensures r.Found? <==> Normal(mac) != "" && ok && (Normal(mac) in old(byMac) || token.Some?)
      ensures !r.Found? ==> r == Failed
      // A known address: its client keeps its identifier, token and first time.
      ensures Normal(mac) in old(byMac) ==>
                var c := old(clients)[old(byMac)[Normal(mac)]];
                var d := Client(c.id, if name != "" then name else c.name, c.mac, c.token, now, c.createdAt);
                clients == old(clients)[c.id := d] && last == old(last) && (ok ==> r == Found(d, false))
      // A new one: a client under the next number, whether or not it is saved
      ensures Normal(mac) != "" && Normal(mac) !in old(byMac) ==> last == old(last) + 1
      ensures Normal(mac) != "" && Normal(mac) !in old(byMac) && token.Some? ==>
                var d := Client(ClientId(old(last) + 1), name, Normal(mac), token.value, now, now);
                clients == old(clients)[d.id := d] && (ok ==> r == Found(d, true))
      ensures Normal(mac) !in old(byMac) && token.None? ==> clients == old(clients)
      ensures saved == if r.Found? then clients else old(saved)
    {
      hide Filed, ByMac, ByToken, Distinct, Extends, Kept, Normal, ClientId;
      var norm := Normalize(mac);
      ExtendsSelf(clients);
      if norm == "" {
        NoEmptyMac(clients, byMac, last);
        return Failed;
      }
      var id: string;
      var created := norm !in byMac;
      if !created {
        id := byMac[norm];
        KnownMac(clients, byMac, last, norm);
        Touch(id, name, now);
      } else {
        NextNumber();
        if token.None? {
          return Failed;
        }
        id := ClientId(last);
        NormalTwice(mac);
        Add(Client(id, name, norm, token.value, now, now));
      }
      Persist(ok);
      if !ok {
        return Failed;
      }
      r := Found(clients[id], created);
      GivenKeeps(given, saved, id, norm);
      given := given[id := norm];
      assert saved == clients;
    }

    // Heartbeat()
    method Heartbeat(token: string, now: int, ok: bool) returns (r: Reply)
      requires Valid()
      modifies this`clients, this`saved
      ensures Valid() && Extends(old(clients), clients)
      ensures r == Unknown <==> token !in byToken
      ensures r == Unknown ==> unchanged(this)
      ensures r.Found? ==> ok && r.client.token == token && r.client.lastSeen == now && !r.created
      ensures r.Found? ==> r.client.id == byToken[token] && r.client.id in saved && saved[r.client.id] == r.client
      ensures r.Found? <==> token in byToken && ok
      ensures token in byToken ==>
                var c := old(clients)[byToken[token]];
                var d := Client(c.id, c.name, c.mac, token, now, c.createdAt);
                clients == old(clients)[c.id := d] && (ok ==> r == Found(d, false))
      ensures saved == if r.Found? then clients else old(saved)
    {
      hide Filed, ByMac, ByToken, Distinct, Extends, Kept;
      if token !in byToken {
        ExtendsSelf(clients);
        return Unknown;
      }
      var id := byToken[token];
      KnownToken(clients, byToken, last, token);
      Touch(id, "", now);
      Persist(ok);
      if !ok {
        return Failed;
      }
      r := Found(clients[id], false);
    }

    // newState() after a restart, and rebuildIndexes()
    method Restart()
      requires Valid()
      modifies this
      ensures Valid() && clients == old(saved) && saved == old(saved) && given == old(given)
      ensures old(saved) == old(clients) ==> byMac == old(byMac) && byToken == old(byToken)
      // Numbering goes on after the highest number that was saved.
      ensures last == 0 || exists id :: id in clients && IdSeq(id) == last
    {
      hide Filed, Extends, Kept, Normal, ByMac, ByToken, Distinct;
      var macs, tokens, top := Rebuild(saved, last);
      ExtendsSelf(saved);
      if saved == clients {
        ByMacUnique(clients, byMac, macs);
        ByTokenUnique(clients, byToken, tokens);
      }
      clients, byMac, byToken, last := saved, macs, tokens, top;
    }
  }

  // The clients indexed so far
  ghost predicate Part(clients: Clients, rest: set<string>, byMac: Index, byToken: Index, top: nat) {
    && PartMac(clients, rest, byMac) && PartToken(clients, rest, byToken)
    && forall id :: id in clients && id !in rest ==> IdSeq(id) <= top
  }

  ghost predicate PartMac(clients: Clients, rest: set<string>, byMac: Index) {
    && (forall id :: id in clients && id !in rest ==> clients[id].mac in byMac && byMac[clients[id].mac] == id)
    && (forall mac :: mac in byMac ==> byMac[mac] in clients && byMac[mac] !in rest && clients[byMac[mac]].mac == mac)
  }

  ghost predicate PartToken(clients: Clients, rest: set<string>, byToken: Index) {
    && (forall id :: id in clients && id !in rest ==> clients[id].token in byToken && byToken[clients[id].token] == id)
    && (forall token :: token in byToken ==>
          byToken[token] in clients && byToken[token] !in rest && clients[byToken[token]].token == token)
  }

  // rebuildIndexes(), which visits the clients in no particular order
  method Rebuild(clients: Clients, ghost last: nat) returns (byMac: Index, byToken: Index, top: nat)
    requires Filed(clients, last) && Distinct(clients)
    ensures ByMac(clients, byMac) && ByToken(clients, byToken) && Filed(clients, top)
    ensures top == 0 || exists id :: id in clients && IdSeq(id) == top
  {
    hide Filed, Distinct, Part, ByMac, ByToken, Normal, IdSeq;
    byMac, byToken, top := map[], map[], 0;
    var rest := clients.Keys;
    PartNone(clients);
    while rest != {}
      invariant rest <= clients.Keys && Part(clients, rest, byMac, byToken, top)
      invariant top == 0 || exists id :: id in clients && IdSeq(id) == top
      decreases |rest|
    {
      var id :| id in rest;
      var c := clients[id];
      PartNext(clients, last, rest, byMac, byToken, top, id);
      var mac := Normalize(c.mac);
      byMac := byMac[mac := id];
      if c.token != "" {
        byToken := byToken[c.token := id];
      }
      if IdSeq(id) > top {
        top := IdSeq(id);
      }
      rest := rest - {id};
    }
    PartAll(clients, last, byMac, byToken, top);
  }

  lemma PartNone(clients: Clients)
    ensures Part(clients, clients.Keys, map[], map[], 0)
  {
  }

  lemma PartNext(clients: Clients, last: nat, rest: set<string>, byMac: Index, byToken: Index, top: nat, id: string)
    requires Filed(clients, last) && Distinct(clients) && rest <= clients.Keys && id in rest
    requires Part(clients, rest, byMac, byToken, top)
    ensures var c := clients[id];
            && Normal(c.mac) == c.mac && c.token != ""
            && Part(clients, rest - {id}, byMac[c.mac := id], byToken[c.token := id],
                    if IdSeq(id) > top then IdSeq(id) else top)
  {
    hide Normal, IdSeq, Issued, Distinct, PartMac, PartToken;
    PartMacNext(clients, rest, byMac, id);
    PartTokenNext(clients, rest, byToken, id);
  }

  lemma PartMacNext(clients: Clients, rest: set<string>, byMac: Index, id: string)
    requires Distinct(clients) && id in clients && id in rest && PartMac(clients, rest, byMac)
    ensures PartMac(clients, rest - {id}, byMac[clients[id].mac := id])
  {
  }

  lemma PartTokenNext(clients: Clients, rest: set<string>, byToken: Index, id: string)
    requires Distinct(clients) && id in clients && id in rest && PartToken(clients, rest, byToken)
    ensures PartToken(clients, rest - {id}, byToken[clients[id].token := id])
  {
  }

  lemma PartAll(clients: Clients, last: nat, byMac: Index, byToken: Index, top: nat)
    requires Filed(clients, last) && Part(clients, {}, byMac, byToken, top)
    ensures ByMac(clients, byMac) && ByToken(clients, byToken) && Filed(clients, top)
  {
    hide Normal, IdSeq, ClientId;
  }

  lemma NoEmptyMac(clients: Clients, byMac: Index, last: nat)
    requires ByMac(clients, byMac) && Filed(clients, last)
    ensures "" !in byMac
  {
  }

  lemma KnownMac(clients: Clients, byMac: Index, last: nat, mac: string)
    requires ByMac(clients, byMac) && Filed(clients, last) && mac in byMac
    ensures var id := byMac[mac];
            id in clients && clients[id].mac == mac && clients[id].id == id
  {
  }

  lemma KnownToken(clients: Clients, byToken: Index, last: nat, token: string)
    requires ByToken(clients, byToken) && Filed(clients, last) && token in byToken
    ensures var id := byToken[token];
            id in clients && clients[id].token == token && clients[id].id == id
  {
  }

  lemma ExtendsSelf(clients: Clients)
    ensures Extends(clients, clients)
  {
  }
}
