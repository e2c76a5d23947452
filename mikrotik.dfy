/** Mirroring the allow-list onto a MikroTik router: a firewall address list whose entries are
    tagged `License:<id>`, and a source-NAT rule that sends the traffic of that list out through
    the configured interface and address. The router is the state the service changes; which
    connection attempts and which commands fail is read off its two fault scripts. */
module MikroTik {
  import opened Wrappers
  import opened Types
  import opened Text
  import opened Faults
  import opened Seqs

  /** Connection attempts made before giving up. */
  const DefaultRetries: nat := 3

  const NatComment: string := "Auto-created by License System"

  /** One `/ip/firewall/address-list` entry. */
  datatype Entry = Entry(id: nat, list: string, address: string, comment: string)

  /** One `/ip/firewall/nat` rule. */
  datatype NatRule = NatRule(
    chain: string,
    srcAddressList: string,
    outInterface: string,
    toAddresses: string,
    action: string,
    comment: string)

  /** An address to mirror, with the license it belongs to. */
  datatype SyncItem = SyncItem(ipCidr: string, licenseId: nat)

  /** The comment that ties an entry to its license. */
  function Tag(licenseId: nat): (r: string)
    ensures |r| > 8 && r[..8] == "License:"
  {
    "License:" + FormatNat(licenseId, 10)
  }

  /** Distinct licenses carry distinct tags. */
  lemma TagInjective(a: nat, b: nat)
    requires Tag(a) == Tag(b)
    ensures a == b
  {
    assert Tag(a)[8..] == FormatNat(a, 10);
    assert Tag(b)[8..] == FormatNat(b, 10);
    ParseFormat(a, 10);
    ParseFormat(b, 10);
  }

  /** The rule `ensureNatRule` creates. */
  function RuleFor(cfg: MikroTikConfig): NatRule
  {
    NatRule("srcnat", cfg.addressList, cfg.outInterface, cfg.publicNatIp, "src-nat", NatComment)
  }

  /** The `print` filter of `ensureNatRule`: chain, address list and interface; the NAT address
      is not compared. */
  predicate Serves(r: NatRule, cfg: MikroTikConfig)
  {
    r.chain == "srcnat" && r.srcAddressList == cfg.addressList && r.outInterface == cfg.outInterface
  }

  function Serving(cfg: MikroTikConfig): NatRule -> bool
  {
    (r: NatRule) => Serves(r, cfg)
  }

  predicate HasRule(rules: seq<NatRule>, cfg: MikroTikConfig)
  {
    exists i :: 0 <= i < |rules| && Serves(rules[i], cfg)
  }

  function InList(list: string): Entry -> bool
  {
    (e: Entry) => e.list == list
  }

  function OutsideList(list: string): Entry -> bool
  {
    (e: Entry) => e.list != list
  }

  /** The `print` filter of `removeIpFromMikroTik`. */
  function Matching(list: string, address: string, comment: string): Entry -> bool
  {
    (e: Entry) => e.list == list && e.address == address && e.comment == comment
  }

  function NotMatching(list: string, address: string, comment: string): Entry -> bool
  {
    (e: Entry) => !(e.list == list && e.address == address && e.comment == comment)
  }

  /** Entries not among `gone`. */
  function KeepNot(gone: seq<Entry>): Entry -> bool
  {
    (e: Entry) => e !in gone
  }

  function IdOf(e: Entry): nat
  {
    e.id
  }

  /** The filter `remove` applies: every entry but the one with this id. */
  function WithoutId(id: nat): Entry -> bool
  {
    (e: Entry) => e.id != id
  }

  /** The (address, comment) pair of each entry. */
  function Pairs(es: seq<Entry>): (r: seq<(string, string)>)
    ensures |r| == |es|
  {
    seq(|es|, i requires 0 <= i < |es| => (es[i].address, es[i].comment))
  }

  /** The (address, comment) pairs of a list's entries, in order. */
  function Members(entries: seq<Entry>, list: string): (r: seq<(string, string)>)
    ensures |r| <= |entries|
  {
    Pairs(Filter(entries, InList(list)))
  }

  /** The pairs a full sync should leave in the list. */
  function Wanted(items: seq<SyncItem>): (r: seq<(string, string)>)
    ensures |r| == |items|
  {
    seq(|items|, i requires 0 <= i < |items| => (items[i].ipCidr, Tag(items[i].licenseId)))
  }

  /** The entries a sync appends, numbered from `firstId`. */
  function Appended(items: seq<SyncItem>, list: string, firstId: nat): (r: seq<Entry>)
    ensures |r| == |items|
    ensures forall i :: 0 <= i < |r| ==> r[i].list == list
  {
    seq(|items|, i requires 0 <= i < |items| => Entry(firstId + i, list, items[i].ipCidr, Tag(items[i].licenseId)))
  }

  /** The waits between failed attempts: 1000 ms after the first, 2000 ms after the second, ... */
  function Backoff(m: nat): (r: seq<nat>)
    ensures |r| == m
    ensures forall i :: 0 <= i < m ==> r[i] == 1000 * (i + 1)
  {
    if m == 0 then [] else Backoff(m - 1) + [1000 * m]
  }

  function Sum(s: seq<nat>): nat
  {
    if s == [] then 0 else Sum(s[..|s| - 1]) + s[|s| - 1]
  }

  /** The total wait before the `m+1`-th attempt is 500·m·(m+1) ms; three failing attempts
      wait 3000 ms in all. */
  lemma {:induction false} BackoffTotal(m: nat)
    ensures Sum(Backoff(m)) == 500 * m * (m + 1)
  {
    if m > 0 {
      BackoffTotal(m - 1);
      var b := Backoff(m);
      assert b[..m - 1] == Backoff(m - 1);
      assert b[m - 1] == 1000 * m;
      TriangleStep(m);
    }
  }

  lemma TriangleStep(m: nat)
    requires m > 0
    ensures 500 * (m - 1) * m + 1000 * m == 500 * m * (m + 1)
  {
    var q := m * m;
    assert (m - 1) * m == q - m;
    assert m * (m + 1) == q + m;
  }

  // ---------------------------------------------------------------- list algebra

  /** Removing some entries of list `p`'s complement leaves the `p`-entries as they were. */
  lemma RemovalSpares(entries: seq<Entry>, gone: seq<Entry>, p: Entry -> bool)
    requires forall x :: x in gone ==> !p(x)
    ensures Filter(Filter(entries, KeepNot(gone)), p) == Filter(entries, p)
  {
    FilterFilter(entries, KeepNot(gone), p);
    FilterCongruent(entries, Both(KeepNot(gone), p), p);
  }

  /** Removing exactly the `q`-entries leaves the entries outside `q`. */
  lemma RemovalOfAll(entries: seq<Entry>, q: Entry -> bool, notQ: Entry -> bool)
    requires forall x :: notQ(x) == !q(x)
    ensures Filter(entries, KeepNot(Filter(entries, q))) == Filter(entries, notQ)
  {
    FilterCongruent(entries, KeepNot(Filter(entries, q)), notQ);
  }

  /** Removing one more entry by id, when ids are distinct, is removing that entry. */
  lemma RemoveOneMore(entries: seq<Entry>, addresses: seq<Entry>, done: nat)
    requires done < |addresses| && addresses[done] in entries && DistinctBy(entries, IdOf)
    ensures Filter(Filter(entries, KeepNot(addresses[..done])), WithoutId(addresses[done].id))
         == Filter(entries, KeepNot(addresses[..done + 1]))
  {
    var gone, x := addresses[..done], addresses[done];
    assert addresses[..done + 1] == gone + [x];
    FilterFilter(entries, KeepNot(gone), WithoutId(x.id));
    var k :| 0 <= k < |entries| && entries[k] == x;
    forall i | 0 <= i < |entries|
      ensures Both(KeepNot(gone), WithoutId(x.id))(entries[i]) == KeepNot(gone + [x])(entries[i])
    {
      if i != k {
        SameIdSameIndex(entries, i, k);
        assert entries[i] != x;
      }
    }
    FilterCongruent(entries, Both(KeepNot(gone), WithoutId(x.id)), KeepNot(gone + [x]));
  }

  lemma SameIdSameIndex(entries: seq<Entry>, i: nat, k: nat)
    requires i < |entries| && k < |entries| && i != k && DistinctBy(entries, IdOf)
    ensures entries[i].id != entries[k].id
  {
    if i < k {
      assert IdOf(entries[i]) != IdOf(entries[k]);
    } else {
      assert IdOf(entries[k]) != IdOf(entries[i]);
    }
  }

  /** Emptying list `list` of `entries` and then appending `items` to it leaves exactly the
      wanted pairs in the list. */
  lemma SyncedMembers(entries: seq<Entry>, items: seq<SyncItem>, list: string, firstId: nat)
    ensures Members(Filter(entries, OutsideList(list)) + Appended(items, list, firstId), list) == Wanted(items)
  {
    var base := Filter(entries, OutsideList(list));
    var added := Appended(items, list, firstId);
    forall i | 0 <= i < |base|
      ensures !InList(list)(base[i])
    {
      assert base[i] in base;
    }
    FilterAppend(base, added, InList(list));
    FilterKeepsNone(base, InList(list));
    FilterKeepsAll(added, InList(list));
    assert Filter(base + added, InList(list)) == added;
    AppendedPairs(items, list, firstId);
  }

  lemma AppendedPairs(items: seq<SyncItem>, list: string, firstId: nat)
    ensures Pairs(Appended(items, list, firstId)) == Wanted(items)
  {
  }

  /** ... and leaves every other list as it was, however many items were appended. */
  lemma SyncSpares(entries: seq<Entry>, items: seq<SyncItem>, list: string, firstId: nat)
    ensures Filter(Filter(entries, OutsideList(list)) + Appended(items, list, firstId), OutsideList(list))
         == Filter(entries, OutsideList(list))
  {
    var base := Filter(entries, OutsideList(list));
    var added := Appended(items, list, firstId);
    FilterAppend(base, added, OutsideList(list));
    FilterKeepsNone(added, OutsideList(list));
    FilterFilter(entries, OutsideList(list), OutsideList(list));
    FilterCongruent(entries, Both(OutsideList(list), OutsideList(list)), OutsideList(list));
  }

  /** Removing an address right after adding it: what remains outside the removed entries is
      what was there before the addition. */
  lemma AddThenRemove(entries: seq<Entry>, id: nat, list: string, address: string, licenseId: nat)
    ensures Filter(entries + [Entry(id, list, address, Tag(licenseId))], NotMatching(list, address, Tag(licenseId)))
         == Filter(entries, NotMatching(list, address, Tag(licenseId)))
  {
    var e := Entry(id, list, address, Tag(licenseId));
    FilterAppend(entries, [e], NotMatching(list, address, Tag(licenseId)));
    assert [e][1..] == [];
  }

  // ---------------------------------------------------------------- the router

  class Router {
    var entries: seq<Entry>
    var natRules: seq<NatRule>
    var nextId: nat
    var connectFaults: seq<bool>
    var commandFaults: seq<bool>
    var openCount: nat
    var closeCount: nat

    /** Entry ids are distinct and below the next one handed out. */
    ghost predicate Valid()
      reads this
    {
      (forall e :: e in entries ==> e.id < nextId) && DistinctBy(entries, IdOf)
    }

    constructor (connectFaults: seq<bool>, commandFaults: seq<bool>)
      ensures entries == [] && natRules == [] && nextId == 0 && openCount == 0 && closeCount == 0
      ensures this.connectFaults == connectFaults && this.commandFaults == commandFaults
      ensures Valid()
    {
      entries, natRules, nextId := [], [], 0;
      this.connectFaults, this.commandFaults := connectFaults, commandFaults;
      openCount, closeCount := 0, 0;
    }

    /** One `api.connect()`: opens a session unless the attempt fails. */
    method Connect() returns (ok: bool)
      modifies this
      ensures ok == !FailsAt(old(connectFaults), 0)
      ensures connectFaults == Drop(old(connectFaults), 1)
      ensures openCount == old(openCount) + (if ok then 1 else 0)
      ensures entries == old(entries) && natRules == old(natRules) && nextId == old(nextId)
      ensures commandFaults == old(commandFaults) && closeCount == old(closeCount)
    {
      ok := !(connectFaults != [] && connectFaults[0]);
      connectFaults := if connectFaults == [] then [] else connectFaults[1..];
      if ok {
        openCount := openCount + 1;
      }
    }

    /** `api.close()` */
    method Close()
      modifies this
      ensures closeCount == old(closeCount) + 1
      ensures entries == old(entries) && natRules == old(natRules) && nextId == old(nextId)
      ensures connectFaults == old(connectFaults) && commandFaults == old(commandFaults) && openCount == old(openCount)
    {
      closeCount := closeCount + 1;
    }

    /** Issues one command: it fails when the script says so. */
    method Command() returns (ok: bool)
      modifies this
      ensures ok == !FailsAt(old(commandFaults), 0)
      ensures commandFaults == Drop(old(commandFaults), 1)
      ensures Clean(old(commandFaults)) ==> Clean(commandFaults)
      ensures entries == old(entries) && natRules == old(natRules) && nextId == old(nextId)
      ensures connectFaults == old(connectFaults) && openCount == old(openCount) && closeCount == old(closeCount)
    {
      if Clean(commandFaults) {
        CleanDrop(commandFaults, 1);
      }
      ok := !(commandFaults != [] && commandFaults[0]);
      commandFaults := if commandFaults == [] then [] else commandFaults[1..];
    }

    /** `/ip/firewall/address-list/print` with a filter. */
    method PrintEntries(keep: Entry -> bool) returns (r: Option<seq<Entry>>)
      modifies this
      ensures r == if FailsAt(old(commandFaults), 0) then None else Some(Filter(entries, keep))
      ensures commandFaults == Drop(old(commandFaults), 1)
      ensures Clean(old(commandFaults)) ==> Clean(commandFaults)
      ensures entries == old(entries) && natRules == old(natRules) && nextId == old(nextId)
      ensures connectFaults == old(connectFaults) && openCount == old(openCount) && closeCount == old(closeCount)
    {
      var ok := Command();
      r := if ok then Some(Filter(entries, keep)) else None;
    }

    /** `/ip/firewall/nat/print` filtered on chain, address list and interface. */
    method PrintNat(cfg: MikroTikConfig) returns (r: Option<seq<NatRule>>)
      modifies this
      ensures r == if FailsAt(old(commandFaults), 0) then None else Some(Filter(natRules, Serving(cfg)))
      ensures commandFaults == Drop(old(commandFaults), 1)
      ensures Clean(old(commandFaults)) ==> Clean(commandFaults)
      ensures entries == old(entries) && natRules == old(natRules) && nextId == old(nextId)
      ensures connectFaults == old(connectFaults) && openCount == old(openCount) && closeCount == old(closeCount)
    {
      var ok := Command();
      r := if ok then Some(Filter(natRules, Serving(cfg))) else None;
    }

    /** `/ip/firewall/nat/add` */
    method AddNat(rule: NatRule) returns (ok: bool)
      modifies this
      ensures ok == !FailsAt(old(commandFaults), 0)
      ensures commandFaults == Drop(old(commandFaults), 1)
      ensures Clean(old(commandFaults)) ==> Clean(commandFaults)
      ensures natRules == if ok then old(natRules) + [rule] else old(natRules)
      ensures entries == old(entries) && nextId == old(nextId)
      ensures connectFaults == old(connectFaults) && openCount == old(openCount) && closeCount == old(closeCount)
    {
      ok := Command();
      if ok {
        natRules := natRules + [rule];
      }
    }

    /** `/ip/firewall/address-list/add`: a new entry with a fresh id. */
    method AddEntry(list: string, address: string, comment: string) returns (ok: bool)
      modifies this
      requires Valid()
      ensures Valid()
      ensures ok == !FailsAt(old(commandFaults), 0)
      ensures commandFaults == Drop(old(commandFaults), 1)
      ensures Clean(old(commandFaults)) ==> Clean(commandFaults)
      ensures ok ==> entries == old(entries) + [Entry(old(nextId), list, address, comment)] && nextId == old(nextId) + 1
      ensures !ok ==> entries == old(entries) && nextId == old(nextId)
      ensures natRules == old(natRules)
      ensures connectFaults == old(connectFaults) && openCount == old(openCount) && closeCount == old(closeCount)
    {
      ok := Command();
      if ok {
        entries := entries + [Entry(nextId, list, address, comment)];
        nextId := nextId + 1;
      }
    }

    /** `/ip/firewall/address-list/remove` by id. */
    method RemoveEntry(id: nat) returns (ok: bool)
      modifies this
      requires Valid()
      ensures Valid()
      ensures ok == !FailsAt(old(commandFaults), 0)
      ensures commandFaults == Drop(old(commandFaults), 1)
      ensures Clean(old(commandFaults)) ==> Clean(commandFaults)
      ensures entries == if ok then Filter(old(entries), WithoutId(id)) else old(entries)
      ensures natRules == old(natRules) && nextId == old(nextId)
      ensures connectFaults == old(connectFaults) && openCount == old(openCount) && closeCount == old(closeCount)
    {
      ok := Command();
      if ok {
        FilterDistinct(entries, WithoutId(id), IdOf);
        entries := Filter(entries, WithoutId(id));
      }
    }
  }

  /** `for (const addr of addresses) await api.write('.../remove', ...)`: removes the given
      entries one by one; the first failing command ends the loop. `done` counts the removals. */
  method RemoveEach(router: Router, addresses: seq<Entry>) returns (ok: bool, done: nat)
    modifies router
    requires router.Valid()
    requires forall i :: 0 <= i < |addresses| ==> addresses[i] in router.entries
    ensures router.Valid()
    ensures done <= |addresses| && (ok <==> done == |addresses|)
    ensures router.entries == Filter(old(router.entries), KeepNot(addresses[..done]))
    ensures Clean(old(router.commandFaults)) ==> ok && Clean(router.commandFaults)
    ensures router.natRules == old(router.natRules) && router.nextId == old(router.nextId)
    ensures router.connectFaults == old(router.connectFaults)
    ensures router.openCount == old(router.openCount) && router.closeCount == old(router.closeCount)
  {
    ghost var e0 := router.entries;
    FilterKeepsAll(e0, KeepNot([]));
    assert addresses[..0] == [];
    done := 0;
    while done < |addresses|
      invariant 0 <= done <= |addresses|
      invariant router.Valid()
      invariant router.entries == Filter(e0, KeepNot(addresses[..done]))
      invariant Clean(old(router.commandFaults)) ==> Clean(router.commandFaults)
      invariant router.natRules == old(router.natRules) && router.nextId == old(router.nextId)
      invariant router.connectFaults == old(router.connectFaults)
      invariant router.openCount == old(router.openCount) && router.closeCount == old(router.closeCount)
    {
      var removed := router.RemoveEntry(addresses[done].id);
      if !removed {
        return false, done;
      }
      RemoveOneMore(e0, addresses, done);
      done := done + 1;
    }
    ok := true;
  }

  /** `for (const ip of ips) await api.write('.../add', ...)`: appends one tagged entry per
      item; the first failing command ends the loop. `done` counts the additions. */
  method AddEach(router: Router, list: string, items: seq<SyncItem>) returns (ok: bool, done: nat)
    modifies router
    requires router.Valid()
    ensures router.Valid()
    ensures done <= |items| && (ok <==> done == |items|)
    ensures router.entries == old(router.entries) + Appended(items[..done], list, old(router.nextId))
    ensures router.nextId == old(router.nextId) + done
    ensures Clean(old(router.commandFaults)) ==> ok && Clean(router.commandFaults)
    ensures router.natRules == old(router.natRules) && router.connectFaults == old(router.connectFaults)
    ensures router.openCount == old(router.openCount) && router.closeCount == old(router.closeCount)
  {
    ghost var base := router.entries;
    ghost var firstId := router.nextId;
    assert base + Appended(items[..0], list, firstId) == base;
    done := 0;
    while done < |items|
      invariant 0 <= done <= |items|
      invariant router.Valid()
      invariant router.entries == base + Appended(items[..done], list, firstId)
      invariant router.nextId == firstId + done
      invariant Clean(old(router.commandFaults)) ==> Clean(router.commandFaults)
      invariant router.natRules == old(router.natRules) && router.connectFaults == old(router.connectFaults)
      invariant router.openCount == old(router.openCount) && router.closeCount == old(router.closeCount)
    {
      var added := router.AddEntry(list, items[done].ipCidr, Tag(items[done].licenseId));
      if !added {
        return false, done;
      }
      assert Appended(items[..done + 1], list, firstId) == Appended(items[..done], list, firstId)
        + [Entry(firstId + done, list, items[done].ipCidr, Tag(items[done].licenseId))];
      done := done + 1;
    }
    ok := true;
  }

  // ---------------------------------------------------------------- the service

  class Service {
    /** The configuration given to `initMikroTik`; `None` before it is called. */
    var config: Option<MikroTikConfig>
    /** The waits, in milliseconds, between connection attempts so far. */
    var delays: seq<nat>

    constructor ()
      ensures config == None && delays == []
    {
      config, delays := None, [];
    }

    /** `initMikroTik` */
    method Init(cfg: MikroTikConfig)
      modifies this
      ensures config == Some(cfg) && delays == old(delays)
    {
      config := Some(cfg);
    }

    /** Sync runs only after `initMikroTik` with `enabled` set. */
    predicate Enabled()
      reads this
    {
      config.Some? && config.value.enabled
    }

    /** `getConnection(retries)`: up to `retries` attempts, waiting 1000·k ms after failed
        attempt k unless it was the last. Succeeds exactly when one of the attempts does; the
        first successful attempt opens the only session. */
    method GetConnection(router: Router, retries: nat) returns (ok: bool)
      modifies this, router
      ensures config == old(config)
      ensures var p := FirstPass(old(router.connectFaults), retries);
        ok == (p < retries)
        && router.connectFaults == Drop(old(router.connectFaults), if ok then p + 1 else retries)
        && delays == old(delays) + Backoff(if ok then p else if retries == 0 then 0 else retries - 1)
        && router.openCount == old(router.openCount) + (if ok then 1 else 0)
      ensures router.entries == old(router.entries) && router.natRules == old(router.natRules)
      ensures router.nextId == old(router.nextId) && router.commandFaults == old(router.commandFaults)
      ensures router.closeCount == old(router.closeCount)
    {
      ghost var f0 := router.connectFaults;
      ghost var p := FirstPass(f0, retries);
      assert Drop(f0, 0) == f0;
      ok := false;
      var tries := 0;
      while tries < retries && !ok
        invariant tries <= retries
        invariant ok ==> tries == p + 1
        invariant !ok ==> tries <= p
        invariant router.connectFaults == Drop(f0, tries)
        invariant delays == old(delays) + Backoff(Waits(ok, tries, retries))
        invariant router.openCount == old(router.openCount) + (if ok then 1 else 0)
        invariant config == old(config)
        invariant router.entries == old(router.entries) && router.natRules == old(router.natRules)
        invariant router.nextId == old(router.nextId) && router.commandFaults == old(router.commandFaults)
        invariant router.closeCount == old(router.closeCount)
      {
        ok := router.Connect();
        DropShifts(f0, tries, 0);
        DropDrop(f0, tries, 1);
        tries := tries + 1;
        if !ok && tries < retries {
          delays := delays + [1000 * tries];
        }
      }
    }

    /** `ensureAddressList`: one `print` whose outcome, failure included, changes nothing. */
    method EnsureAddressList(router: Router, cfg: MikroTikConfig)
      modifies router
      ensures router.commandFaults == Drop(old(router.commandFaults), 1)
      ensures Clean(old(router.commandFaults)) ==> Clean(router.commandFaults)
      ensures router.entries == old(router.entries) && router.natRules == old(router.natRules)
      ensures router.nextId == old(router.nextId) && router.connectFaults == old(router.connectFaults)
      ensures router.openCount == old(router.openCount) && router.closeCount == old(router.closeCount)
    {
      var lists := router.PrintEntries(InList(cfg.addressList));
    }

    /** `ensureNatRule`: adds the rule only when no rule serves the list on the interface; an
        error is passed on. */
    method EnsureNatRule(router: Router, cfg: MikroTikConfig) returns (ok: bool)
      modifies router
      ensures var cf := old(router.commandFaults);
        if FailsAt(cf, 0) then !ok && router.natRules == old(router.natRules) && router.commandFaults == Drop(cf, 1)
        else if HasRule(old(router.natRules), cfg) then ok && router.natRules == old(router.natRules) && router.commandFaults == Drop(cf, 1)
        else ok == !FailsAt(cf, 1) && router.commandFaults == Drop(cf, 2)
             && router.natRules == if ok then old(router.natRules) + [RuleFor(cfg)] else old(router.natRules)
      ensures ok ==> HasRule(router.natRules, cfg)
      ensures Clean(old(router.commandFaults)) ==> ok && Clean(router.commandFaults)
      ensures router.entries == old(router.entries) && router.nextId == old(router.nextId)
      ensures router.connectFaults == old(router.connectFaults)
      ensures router.openCount == old(router.openCount) && router.closeCount == old(router.closeCount)
    {
      ghost var cf := router.commandFaults;
      var rules := router.PrintNat(cfg);
      if rules.None? {
        return false;
      }
      if rules.value == [] {
        FilterEmptyIff(router.natRules, Serving(cfg));
        ok := router.AddNat(RuleFor(cfg));
        DropDrop(cf, 1, 1);
        if ok {
          assert Serves(router.natRules[|router.natRules| - 1], cfg);
        }
      } else {
        var r := rules.value[0];
        assert r in Filter(router.natRules, Serving(cfg));
        var i :| 0 <= i < |router.natRules| && router.natRules[i] == r;
        ok := true;
      }
    }

    /** `addIpToMikroTik`: with sync enabled, connect, look at the address list, make sure the
        NAT rule exists and add a tagged entry; the session is closed whatever happens. The
        entry is added exactly when the connection and every command that matters succeed. */
    method AddIp(router: Router, ipCidr: string, licenseId: nat) returns (ok: bool)
      modifies this, router
      requires router.Valid()
      ensures router.Valid()
      ensures config == old(config)
      ensures !old(Enabled()) ==>
        ok && delays == old(delays)
        && router.entries == old(router.entries) && router.natRules == old(router.natRules)
        && router.connectFaults == old(router.connectFaults) && router.commandFaults == old(router.commandFaults)
        && router.openCount == old(router.openCount) && router.closeCount == old(router.closeCount)
      ensures old(Enabled()) ==>
        var cfg := config.value;
        var reached := FirstPass(old(router.connectFaults), DefaultRetries) < DefaultRetries;
        var commands := if HasRule(old(router.natRules), cfg) then 3 else 4;
        router.openCount - old(router.openCount) == router.closeCount - old(router.closeCount) == (if reached then 1 else 0)
        && (ok <==> reached && PassesBetween(old(router.commandFaults), 1, commands))
        && (ok ==> router.entries == old(router.entries) + [Entry(old(router.nextId), cfg.addressList, ipCidr, Tag(licenseId))]
                   && HasRule(router.natRules, cfg))
        && (!ok ==> router.entries == old(router.entries))
        && (router.natRules == old(router.natRules)
            || (!HasRule(old(router.natRules), cfg) && router.natRules == old(router.natRules) + [RuleFor(cfg)]))
      ensures old(Enabled()) && FirstPass(old(router.connectFaults), DefaultRetries) == DefaultRetries ==>
        !ok && router.entries == old(router.entries) && router.natRules == old(router.natRules)
        && router.commandFaults == old(router.commandFaults)
      ensures old(Enabled()) ==>
        var p := FirstPass(old(router.connectFaults), DefaultRetries);
        delays == old(delays) + Backoff(if p < DefaultRetries then p else DefaultRetries - 1)
    {
      if !Enabled() {
        return true;
      }
      var cfg := config.value;
      var connected := GetConnection(router, DefaultRetries);
      if !connected {
        return false;
      }
      ok := AddTagged(router, cfg, ipCidr, licenseId);
      router.Close();
    }

    /** The commands of `addIpToMikroTik` once connected: look at the list (its failure is
        ignored), make sure of the NAT rule, add the tagged entry; the first error that is passed
        on ends it. */
    method AddTagged(router: Router, cfg: MikroTikConfig, ipCidr: string, licenseId: nat)
      returns (ok: bool)
      modifies router
      requires router.Valid()
      ensures router.Valid()
      ensures var commands := if HasRule(old(router.natRules), cfg) then 3 else 4;
        (ok <==> PassesBetween(old(router.commandFaults), 1, commands))
        && (ok ==> router.entries == old(router.entries) + [Entry(old(router.nextId), cfg.addressList, ipCidr, Tag(licenseId))]
                   && HasRule(router.natRules, cfg))
        && (!ok ==> router.entries == old(router.entries))
        && (router.natRules == old(router.natRules)
            || (!HasRule(old(router.natRules), cfg) && router.natRules == old(router.natRules) + [RuleFor(cfg)]))
      ensures router.connectFaults == old(router.connectFaults)
      ensures router.openCount == old(router.openCount) && router.closeCount == old(router.closeCount)
    {
      ghost var cf := router.commandFaults;
      EnsureAddressList(router, cfg);
      var natOk := EnsureNatRule(router, cfg);
      DropDrop(cf, 1, 1);
      DropDrop(cf, 1, 2);
      DropShifts(cf, 1, 0);
      DropShifts(cf, 1, 1);
      DropShifts(cf, 2, 0);
      DropShifts(cf, 3, 0);
      if natOk {
        ok := router.AddEntry(cfg.addressList, ipCidr, Tag(licenseId));
      } else {
        ok := false;
      }
    }

    /** `removeIpFromMikroTik`: with sync enabled, find the entries of the list with this
        address and this license's tag and remove them one by one; the first failing command
        ends the removal. Entries that do not match are never touched. */
    method RemoveIp(router: Router, ipCidr: string, licenseId: nat) returns (ok: bool)
      modifies this, router
      requires router.Valid()
      ensures router.Valid()
      ensures config == old(config)
      ensures router.natRules == old(router.natRules) && router.nextId == old(router.nextId)
      ensures !old(Enabled()) ==>
        ok && delays == old(delays) && router.entries == old(router.entries)
        && router.connectFaults == old(router.connectFaults) && router.commandFaults == old(router.commandFaults)
        && router.openCount == old(router.openCount) && router.closeCount == old(router.closeCount)
      ensures old(Enabled()) ==>
        var gone := Matching(config.value.addressList, ipCidr, Tag(licenseId));
        var kept := NotMatching(config.value.addressList, ipCidr, Tag(licenseId));
        var reached := FirstPass(old(router.connectFaults), DefaultRetries) < DefaultRetries;
        router.openCount - old(router.openCount) == router.closeCount - old(router.closeCount) == (if reached then 1 else 0)
        && (ok ==> router.entries == Filter(old(router.entries), kept))
        && (forall e :: e in router.entries ==> e in old(router.entries))
        && Filter(router.entries, kept) == Filter(old(router.entries), kept)
        && (reached && Clean(old(router.commandFaults)) ==> ok)
      ensures old(Enabled()) && FirstPass(old(router.connectFaults), DefaultRetries) == DefaultRetries ==>
        !ok && router.entries == old(router.entries) && router.natRules == old(router.natRules)
        && router.commandFaults == old(router.commandFaults)
      ensures old(Enabled()) ==>
        var p := FirstPass(old(router.connectFaults), DefaultRetries);
        delays == old(delays) + Backoff(if p < DefaultRetries then p else DefaultRetries - 1)
    {
      if !Enabled() {
        return true;
      }
      var cfg := config.value;
      var comment := Tag(licenseId);
      var connected := GetConnection(router, DefaultRetries);
      if !connected {
        return false;
      }
      ok := RemoveTagged(router, cfg.addressList, ipCidr, comment);
      router.Close();
    }

    /** The commands of `removeIpFromMikroTik` once connected: `print` the matching entries,
        then remove them one by one; the first failing command ends it. */
    method RemoveTagged(router: Router, list: string, ipCidr: string, comment: string) returns (ok: bool)
      modifies router
      requires router.Valid()
      ensures router.Valid()
      ensures ok ==> router.entries == Filter(old(router.entries), NotMatching(list, ipCidr, comment))
      ensures forall e :: e in router.entries ==> e in old(router.entries)
      ensures Filter(router.entries, NotMatching(list, ipCidr, comment))
           == Filter(old(router.entries), NotMatching(list, ipCidr, comment))
      ensures Clean(old(router.commandFaults)) ==> ok
      ensures router.natRules == old(router.natRules) && router.nextId == old(router.nextId)
      ensures router.connectFaults == old(router.connectFaults)
      ensures router.openCount == old(router.openCount) && router.closeCount == old(router.closeCount)
    {
      ghost var e0 := router.entries;
      FilterKeepsAll(e0, KeepNot([]));
      var found := router.PrintEntries(Matching(list, ipCidr, comment));
      if found.None? {
        return false;
      }
      var addresses := found.value;
      var done;
      ok, done := RemoveEach(router, addresses);
      RemovalSpares(e0, addresses[..done], NotMatching(list, ipCidr, comment));
      if ok {
        assert addresses[..done] == addresses;
        RemovalOfAll(e0, Matching(list, ipCidr, comment), NotMatching(list, ipCidr, comment));
      }
    }

    /** `syncAllIpsToMikroTik`: with sync enabled, make sure the NAT rule exists, empty the
        address list and fill it with the given addresses in order. Afterwards the list holds
        exactly those (address, tag) pairs; the entries of other lists are never touched. */
    method SyncAll(router: Router, items: seq<SyncItem>) returns (ok: bool)
      modifies this, router
      requires router.Valid()
      ensures router.Valid()
      ensures config == old(config)
      ensures !old(Enabled()) ==>
        ok && delays == old(delays) && router.entries == old(router.entries)
        && router.natRules == old(router.natRules)
        && router.connectFaults == old(router.connectFaults) && router.commandFaults == old(router.commandFaults)
        && router.openCount == old(router.openCount) && router.closeCount == old(router.closeCount)
      ensures old(Enabled()) ==>
        var cfg := config.value;
        var reached := FirstPass(old(router.connectFaults), DefaultRetries) < DefaultRetries;
        router.openCount - old(router.openCount) == router.closeCount - old(router.closeCount) == (if reached then 1 else 0)
        && (ok ==> Members(router.entries, cfg.addressList) == Wanted(items) && HasRule(router.natRules, cfg))
        && Filter(router.entries, OutsideList(cfg.addressList)) == Filter(old(router.entries), OutsideList(cfg.addressList))
        && (router.natRules == old(router.natRules)
            || (!HasRule(old(router.natRules), cfg) && router.natRules == old(router.natRules) + [RuleFor(cfg)]))
        && (reached && Clean(old(router.commandFaults)) ==> ok)
      ensures old(Enabled()) && FirstPass(old(router.connectFaults), DefaultRetries) == DefaultRetries ==>
        !ok && router.entries == old(router.entries) && router.natRules == old(router.natRules)
        && router.commandFaults == old(router.commandFaults)
      ensures old(Enabled()) ==>
        var p := FirstPass(old(router.connectFaults), DefaultRetries);
        delays == old(delays) + Backoff(if p < DefaultRetries then p else DefaultRetries - 1)
    {
      if !Enabled() {
        return true;
      }
      var cfg := config.value;
      var connected := GetConnection(router, DefaultRetries);
      if !connected {
        return false;
      }
      ok := Resync(router, cfg, items);
      router.Close();
    }

    /** The body of the sync once connected: the NAT rule, then emptying and refilling the
        list; the first failing command ends it. */
    method Resync(router: Router, cfg: MikroTikConfig, items: seq<SyncItem>) returns (ok: bool)
      modifies router
      requires router.Valid()
      ensures router.Valid()
      ensures ok ==> Members(router.entries, cfg.addressList) == Wanted(items) && HasRule(router.natRules, cfg)
      ensures Filter(router.entries, OutsideList(cfg.addressList)) == Filter(old(router.entries), OutsideList(cfg.addressList))
      ensures router.natRules == old(router.natRules)
        || (!HasRule(old(router.natRules), cfg) && router.natRules == old(router.natRules) + [RuleFor(cfg)])
      ensures Clean(old(router.commandFaults)) ==> ok
      ensures router.connectFaults == old(router.connectFaults)
      ensures router.openCount == old(router.openCount) && router.closeCount == old(router.closeCount)
    {
      var list := cfg.addressList;
      ghost var e0 := router.entries;
      ghost var id0 := router.nextId;
      var natOk := EnsureNatRule(router, cfg);
      if !natOk {
        return false;
      }
      var cleared := ClearList(router, list);
      if !cleared {
        return false;
      }
      var added;
      ok, added := AddEach(router, list, items);
      SyncSpares(e0, items[..added], list, id0);
      if ok {
        assert items[..added] == items;
        SyncedMembers(e0, items, list, id0);
      }
    }
  }

  /** `print` of the list followed by removing each entry it lists: on success the list is
      empty; whatever happens, the other lists are untouched. */
  method ClearList(router: Router, list: string) returns (ok: bool)
    modifies router
    requires router.Valid()
    ensures router.Valid()
    ensures ok ==> router.entries == Filter(old(router.entries), OutsideList(list))
    ensures Filter(router.entries, OutsideList(list)) == Filter(old(router.entries), OutsideList(list))
    ensures Clean(old(router.commandFaults)) ==> ok && Clean(router.commandFaults)
    ensures router.natRules == old(router.natRules) && router.nextId == old(router.nextId)
    ensures router.connectFaults == old(router.connectFaults)
    ensures router.openCount == old(router.openCount) && router.closeCount == old(router.closeCount)
  {
    ghost var e0 := router.entries;
    var existing := router.PrintEntries(InList(list));
    if existing.None? {
      return false;
    }
    var addresses := existing.value;
    var removed;
    ok, removed := RemoveEach(router, addresses);
    RemovalSpares(e0, addresses[..removed], OutsideList(list));
    if ok {
      assert addresses[..removed] == addresses;
      RemovalOfAll(e0, InList(list), OutsideList(list));
    }
  }

  /** The waits so far after `tries` attempts: none after a success or after the last attempt. */
  function Waits(ok: bool, tries: nat, retries: nat): nat
  {
    if ok || (tries == retries && retries > 0) then if tries == 0 then 0 else tries - 1 else tries
  }
}
