/** Controllers, how a newly detected one is matched with an old one, and when the
    one-to-one greedy matching is exact. */
module Devices {
  import opened Memories
  import opened Reconcile

  datatype Device
    = Device(kind: nat, name: string, description: string, version: string, serial: string, location: string)

  /** A controller object: its identity as an object, and the description it carries. */
  datatype Controller = Controller(id: nat, device: Device)

  // ----- the location rule -----

  /** t is in s at position i. */
  predicate OccursAt(s: string, t: string, i: int) {
    0 <= i <= |s| - |t| && s[i..i + |t|] == t
  }

  predicate Contains(s: string, t: string) {
    exists i :: 0 <= i <= |s| && OccursAt(s, t, i)
  }

  /** The start of the last ", ". */
  function LastSeparator(s: string): (p: Option<nat>)
    ensures p.None? <==> !Contains(s, ", ")
    ensures p.Some? ==> OccursAt(s, ", ", p.value) && forall i :: i > p.value ==> !OccursAt(s, ", ", i)
  {
    SeparatorBefore(s, |s|)
  }

  function SeparatorBefore(s: string, n: nat): (p: Option<nat>)
    ensures p.None? <==> forall i :: i < n ==> !OccursAt(s, ", ", i)
    ensures p.Some? ==>
              p.value < n && OccursAt(s, ", ", p.value) && forall i :: p.value < i < n ==> !OccursAt(s, ", ", i)
  {
    if n == 0 then None
    else if OccursAt(s, ", ", n - 1) then Some(n - 1)
    else SeparatorBefore(s, n - 1)
  }

  predicate IsHid(d: Device) {
    "HID: " <= d.location
  }

  predicate IsI2c(d: Device) {
    "I2C: " <= d.location
  }

  /** HID paths are not compared, of I2C locations only the address, others exactly.
      Which rule applies is decided by the new device alone. */
  predicate LocationMatches(existing: Device, detected: Device) {
    if IsHid(detected) then true
    else if IsI2c(detected) then
      var p := LastSeparator(detected.location);
      p.Some? && Contains(existing.location, detected.location[p.value + 2..])
    else existing.location == detected.location
  }

  predicate Matches(existing: Device, detected: Device) {
    && existing.kind == detected.kind && existing.name == detected.name
    && existing.description == detected.description
    && existing.version == detected.version && existing.serial == detected.serial
    && LocationMatches(existing, detected)
  }

  /** The descriptions agree in all but the location. */
  predicate SameButPlace(e: Device, d: Device) {
    e.(location := d.location) == d
  }

  /** A detected HID device matches wherever the old one was. */
  lemma HidRule(e: Device, d: Device, path: string)
    requires d.location == "HID: " + path
    ensures Matches(e, d) <==> SameButPlace(e, d)
  {
    assert d.location[..5] == "HID: ";
  }

  /** A detected I2C device matches when its address, what follows the last separator, stands
      anywhere in the old location; without a separator it matches nothing. */
  lemma I2cRule(e: Device, d: Device, bus: string, address: string)
    requires d.location == "I2C: " + bus
    ensures !Contains(d.location, ", ") ==> !Matches(e, d)
    ensures LastSeparator(d.location).Some? && d.location[LastSeparator(d.location).value + 2..] == address ==>
              (Matches(e, d) <==>
               SameButPlace(e, d) && exists i :: 0 <= i <= |e.location| && OccursAt(e.location, address, i))
  {
    assert d.location[..5] == "I2C: " && d.location[0] == 'I';
  }

  /** Any other matches only where it was. */
  lemma PlainRule(e: Device, d: Device)
    requires !("HID: " <= d.location) && !("I2C: " <= d.location)
    ensures Matches(e, d) <==> e == d
  {
  }

  // ----- greedy matching -----

  /** The first pending controller that is not matched yet and matches c. */
  function FirstMatch(pending: seq<Controller>, matched: seq<Controller>, c: Controller): (m: Option<Controller>)
    ensures m.Some? ==> m.value in pending && m.value !in matched && Matches(m.value.device, c.device)
    ensures m.None? ==> forall e :: e in pending ==> e in matched || !Matches(e.device, c.device)
  {
    if pending == [] then None
    else if pending[0] !in matched && Matches(pending[0].device, c.device) then Some(pending[0])
    else FirstMatch(pending[1..], matched, c)
  }

  /** It is the first one in the list. */
  lemma {:induction false} FirstMatchIs(pending: seq<Controller>, matched: seq<Controller>, c: Controller)
    returns (i: nat)
    ensures i <= |pending| && (i < |pending| ==> FirstMatch(pending, matched, c) == Some(pending[i]))
    ensures i == |pending| ==> FirstMatch(pending, matched, c) == None
    ensures forall j :: 0 <= j < i ==> pending[j] in matched || !Matches(pending[j].device, c.device)
    ensures i < |pending| ==> pending[i] !in matched && Matches(pending[i].device, c.device)
  {
    if pending == [] || (pending[0] !in matched && Matches(pending[0].device, c.device)) {
      i := 0;
    } else {
      var k := FirstMatchIs(pending[1..], matched, c);
      assert forall j :: 1 <= j < |pending| ==> pending[j] == pending[1..][j - 1];
      i := k + 1;
    }
  }

  function MatchOne(pending: seq<Controller>, matched: seq<Controller>, c: Controller): seq<Controller> {
    match FirstMatch(pending, matched, c)
    case Some(e) => matched + [e]
    case None => matched
  }

  /** The matched list after the given controllers have registered, one after the other. */
  function Greedy(pending: seq<Controller>, news: seq<Controller>): seq<Controller> {
    if news == [] then [] else MatchOne(pending, Greedy(pending, news[..|news| - 1]), news[|news| - 1])
  }

  /** One to one: no pending controller is matched twice, and no more than registered. */
  lemma {:induction false} GreedyOneToOne(pending: seq<Controller>, news: seq<Controller>)
    ensures var m := Greedy(pending, news);
            Distinct(m) && |m| <= |news| && forall e :: e in m ==> e in pending
    decreases |news|
  {
    if news != [] {
      GreedyOneToOne(pending, news[..|news| - 1]);
    }
  }

  // ----- identities -----

  type Key = Device -> Device

  /** Matching is equality of a key, on the given old and new controllers. */
  ghost predicate KeyedBy(key: Key, pending: seq<Controller>, news: seq<Controller>) {
    forall e, c {:trigger Matches(e.device, c.device)} :: e in pending && c in news ==>
      (Matches(e.device, c.device) <==> key(e.device) == key(c.device))
  }

  function Keys(key: Key, cs: seq<Controller>): (ks: seq<Device>)
    ensures |ks| == |cs| && forall i :: 0 <= i < |cs| ==> ks[i] == key(cs[i].device)
  {
    seq(|cs|, i requires 0 <= i < |cs| => key(cs[i].device))
  }

  /** How many controllers have key k. */
  function Count(key: Key, cs: seq<Controller>, k: Device): nat {
    if cs == [] then 0 else Count(key, cs[..|cs| - 1], k) + (if key(cs[|cs| - 1].device) == k then 1 else 0)
  }

  lemma {:induction false} CountIsMultiplicity(key: Key, cs: seq<Controller>, k: Device)
    ensures Count(key, cs, k) == multiset(Keys(key, cs))[k]
    decreases |cs|
  {
    if cs != [] {
      var init, c := cs[..|cs| - 1], cs[|cs| - 1];
      CountIsMultiplicity(key, init, k);
      assert Keys(key, cs) == Keys(key, init) + [key(c.device)];
    }
  }

  lemma {:induction false} CountCut(key: Key, cs: seq<Controller>, k: Device, i: nat)
    requires i < |cs|
    ensures Count(key, cs, k) == Count(key, cs[..i] + cs[i + 1..], k) + (if key(cs[i].device) == k then 1 else 0)
    decreases |cs|
  {
    if i == |cs| - 1 {
      assert cs[..i] + cs[i + 1..] == cs[..|cs| - 1];
    } else {
      var init := cs[..|cs| - 1];
      CountCut(key, init, k, i);
      var rest := cs[..i] + cs[i + 1..];
      assert rest[..|rest| - 1] == init[..i] + init[i + 1..];
      assert rest[|rest| - 1] == cs[|cs| - 1];
    }
  }

  /** Of the controllers with key k in part of a duplicate-free list there are at most as
      many as in the list, and fewer exactly when one with that key is left out. */
  lemma {:induction false} CountPart(key: Key, part: seq<Controller>, whole: seq<Controller>, k: Device)
    requires Distinct(part) && Distinct(whole) && forall e :: e in part ==> e in whole
    ensures Count(key, part, k) <= Count(key, whole, k)
    ensures Count(key, part, k) < Count(key, whole, k) <==>
            exists e :: e in whole && e !in part && key(e.device) == k
    decreases |part|
  {
    if part == [] {
      CountSome(key, whole, k);
    } else {
      var init, c := part[..|part| - 1], part[|part| - 1];
      assert c in whole;
      var i :| 0 <= i < |whole| && whole[i] == c;
      var rest := whole[..i] + whole[i + 1..];
      CountCut(key, whole, k, i);
      RestHas(whole, i);
      assert forall e :: e in part <==> e in init || e == c;
      CountPart(key, init, rest, k);
    }
  }

  lemma RestHas(whole: seq<Controller>, i: nat)
    requires Distinct(whole) && i < |whole|
    ensures var rest := whole[..i] + whole[i + 1..];
            Distinct(rest) && forall e :: e in rest <==> e in whole && e != whole[i]
  {
    var rest := whole[..i] + whole[i + 1..];
    forall e | e in whole && e != whole[i]
      ensures e in rest
    {
      var j :| 0 <= j < |whole| && whole[j] == e;
      assert e == rest[if j < i then j else j - 1];
    }
  }

  lemma {:induction false} CountSome(key: Key, cs: seq<Controller>, k: Device)
    ensures Count(key, cs, k) > 0 <==> exists e :: e in cs && key(e.device) == k
    decreases |cs|
  {
    if cs != [] {
      CountSome(key, cs[..|cs| - 1], k);
      assert forall e :: e in cs <==> e in cs[..|cs| - 1] || e == cs[|cs| - 1];
    }
  }

  function Min(a: nat, b: nat): nat {
    if a <= b then a else b
  }

  /** Greedy matching is optimal key by key. */
  lemma {:induction false} GreedyCounts(key: Key, pending: seq<Controller>, news: seq<Controller>, k: Device)
    requires Distinct(pending) && KeyedBy(key, pending, news)
    ensures Count(key, Greedy(pending, news), k) == Min(Count(key, pending, k), Count(key, news, k))
    decreases |news|
  {
    if news != [] {
      var init, c := news[..|news| - 1], news[|news| - 1];
      GreedyCounts(key, pending, init, k);
      GreedyOneToOne(pending, init);
      MatchOneCounts(key, pending, Greedy(pending, init), c, k);
    }
  }

  lemma MatchOneCounts(key: Key, pending: seq<Controller>, matched: seq<Controller>, c: Controller, k: Device)
    requires Distinct(pending) && KeyedBy(key, pending, [c])
    requires Distinct(matched) && forall e :: e in matched ==> e in pending
    ensures Count(key, MatchOne(pending, matched, c), k) == Count(key, matched, k) +
            (if key(c.device) == k && Count(key, matched, k) < Count(key, pending, k) then 1 else 0)
  {
    CountPart(key, matched, pending, k);
    var m := FirstMatch(pending, matched, c);
    assert c in [c];
    if m.Some? {
      assert Matches(m.value.device, c.device);
    }
  }

  /** The scan found the same devices: as many as before, each matched. */
  predicate SameDevices(pending: seq<Controller>, news: seq<Controller>) {
    |news| == |pending| && |Greedy(pending, news)| == |news|
  }

  /** With matching by key, that is so exactly when the identities are the same, as multisets. */
  lemma SameExact(key: Key, pending: seq<Controller>, news: seq<Controller>)
    requires Distinct(pending) && KeyedBy(key, pending, news)
    ensures SameDevices(pending, news) <==> multiset(Keys(key, pending)) == multiset(Keys(key, news))
  {
    var m := Greedy(pending, news);
    var P, N, M := multiset(Keys(key, pending)), multiset(Keys(key, news)), multiset(Keys(key, m));
    forall k
      ensures M[k] == Min(P[k], N[k])
    {
      GreedyCounts(key, pending, news, k);
      CountIsMultiplicity(key, pending, k);
      CountIsMultiplicity(key, news, k);
      CountIsMultiplicity(key, m, k);
    }
    CommonPart(P, N, M);
  }

  /** The common part is as large as both exactly when both are the same. */
  lemma CommonPart(a: multiset<Device>, b: multiset<Device>, m: multiset<Device>)
    requires forall k :: m[k] == Min(a[k], b[k])
    ensures |a| == |b| && |m| == |b| <==> a == b
  {
    assert m <= a && m <= b;
    if a == b {
      assert m == a;
    } else if |a| == |b| && |m| == |b| {
      SmallerIsEqual(m, a);
      SmallerIsEqual(m, b);
    }
  }

  lemma SmallerIsEqual(a: multiset<Device>, b: multiset<Device>)
    requires a <= b && |a| == |b|
    ensures a == b
  {
    assert b == a + (b - a);
    assert |b - a| == 0;
  }

  // ----- the two cases where matching is by key -----

  function WithoutLocation(d: Device): Device {
    d.(location := "")
  }

  /** When every new device is a HID device, identity is everything but the location. */
  lemma HidOnly(pending: seq<Controller>, news: seq<Controller>)
    requires Distinct(pending) && forall c :: c in news ==> IsHid(c.device)
    ensures SameDevices(pending, news) <==>
            multiset(Keys(WithoutLocation, pending)) == multiset(Keys(WithoutLocation, news))
  {
    SameExact(WithoutLocation, pending, news);
  }

  function Whole(d: Device): Device {
    d
  }

  /** When no new device is a HID or I2C device, identity is the whole description. */
  lemma PlainOnly(pending: seq<Controller>, news: seq<Controller>)
    requires Distinct(pending) && forall c :: c in news ==> !IsHid(c.device) && !IsI2c(c.device)
    ensures SameDevices(pending, news) <==>
            multiset(Keys(Whole, pending)) == multiset(Keys(Whole, news))
  {
    SameExact(Whole, pending, news);
  }

  // ----- scans of every kind of device -----

  /** The text after the last ", " of the location, or all of it. */
  function Address(d: Device): string {
    var p := LastSeparator(d.location);
    if p.Some? then d.location[p.value + 2..] else d.location
  }

  function ByAddress(d: Device): Device {
    d.(location := Address(d))
  }

  /** What makes a device the same one on the next scan: for HID devices not the path,
      for I2C devices of the location only the address, otherwise everything. */
  function Identity(d: Device): Device {
    if IsHid(d) then d.(location := "HID: ")
    else if IsI2c(d) then d.(location := "I2C: " + Address(d))
    else d
  }

  predicate SameButLocation(e: Device, c: Device) {
    && e.kind == c.kind && e.name == c.name && e.description == c.description
    && e.version == c.version && e.serial == c.serial
  }

  /** The location rule errs: it takes any old device for a new HID one, takes an old
      location that merely contains the new address for the same, and never matches a
      new I2C location without a separator. */
  predicate Confused(e: Device, c: Device) {
    if IsHid(c) then !IsHid(e)
    else if IsI2c(c) then
      var same := IsI2c(e) && Address(e) == Address(c);
      if LastSeparator(c.location).None? then same else Contains(e.location, Address(c)) && !same
    else false
  }

  lemma AddressOccurs(d: Device)
    ensures Contains(d.location, Address(d))
  {
    var p := LastSeparator(d.location);
    if p.Some? {
      assert OccursAt(d.location, Address(d), p.value + 2);
    } else {
      assert OccursAt(d.location, Address(d), 0);
    }
  }

  /** Identities of different kinds of devices differ. */
  lemma IdentityKinds(e: Device, c: Device)
    ensures Identity(e) == Identity(c) ==> IsHid(e) == IsHid(c) && IsI2c(e) == IsI2c(c)
  {
    var i, j := Identity(e).location, Identity(c).location;
    assert IsHid(e) <==> "HID: " <= i;
    assert IsI2c(e) <==> "I2C: " <= i;
    assert IsHid(c) <==> "HID: " <= j;
    assert IsI2c(c) <==> "I2C: " <= j;
  }

  lemma SameAddress(e: Device, c: Device)
    requires IsI2c(e) && IsI2c(c) && !IsHid(e) && !IsHid(c) && SameButLocation(e, c)
    ensures Identity(e) == Identity(c) <==> Address(e) == Address(c)
  {
    var i, j := "I2C: " + Address(e), "I2C: " + Address(c);
    assert i[5..] == Address(e) && j[5..] == Address(c);
  }

  lemma NotBoth(d: Device)
    ensures !(IsHid(d) && IsI2c(d))
  {
    assert IsHid(d) ==> d.location[0] == 'H';
    assert IsI2c(d) ==> d.location[0] == 'I';
  }

  /** On two devices that agree otherwise, matching is equality of identities exactly
      when the location rule does not err. */
  lemma RuleExact(e: Device, c: Device)
    requires SameButLocation(e, c)
    ensures (Matches(e, c) <==> Identity(e) == Identity(c)) <==> !Confused(e, c)
  {
    IdentityKinds(e, c);
    NotBoth(e);
    NotBoth(c);
    if IsI2c(c) {
      if IsI2c(e) {
        SameAddress(e, c);
      }
      AddressOccurs(e);
    }
  }

  /** A pair of an old and a new device that agree otherwise and confuse the location rule. */
  predicate Mistaken(e: Device, c: Device) {
    SameButLocation(e, c) && Confused(e, c)
  }

  lemma PairExact(e: Device, c: Device)
    ensures (Matches(e, c) <==> Identity(e) == Identity(c)) <==> !Mistaken(e, c)
  {
    if SameButLocation(e, c) {
      RuleExact(e, c);
    }
  }

  predicate NoneConfused(pending: seq<Controller>, news: seq<Controller>) {
    forall e, c :: e in pending && c in news ==> !Mistaken(e.device, c.device)
  }

  /** On any scan, matching is by identity exactly when no pair of an old and a new device
      is mistaken. */
  lemma IdentityExact(pending: seq<Controller>, news: seq<Controller>)
    ensures KeyedBy(Identity, pending, news) <==> NoneConfused(pending, news)
  {
    forall e, c | e in pending && c in news
      ensures (Matches(e.device, c.device) <==> Identity(e.device) == Identity(c.device))
              <==> !Mistaken(e.device, c.device)
    {
      PairExact(e.device, c.device);
    }
  }

  /** So a scan that confuses no pair finds the same devices exactly when the identities
      are the same, whatever mixture of devices it is. */
  lemma MixedScan(pending: seq<Controller>, news: seq<Controller>)
    requires Distinct(pending) && NoneConfused(pending, news)
    ensures SameDevices(pending, news) <==>
            multiset(Keys(Identity, pending)) == multiset(Keys(Identity, news))
  {
    IdentityExact(pending, news);
    SameExact(Identity, pending, news);
  }

  ghost predicate AllOnBus(cs: seq<Controller>) {
    forall c :: c in cs ==> IsI2c(c.device) && LastSeparator(c.device.location).Some?
  }

  /** No old location contains the address of a new device that has another address. */
  predicate AddressesApart(pending: seq<Controller>, news: seq<Controller>) {
    forall e, c :: e in pending && c in news && SameButLocation(e.device, c.device) ==>
      Contains(e.device.location, Address(c.device)) ==> Address(e.device) == Address(c.device)
  }

  /** Among I2C devices matching is by address exactly when the addresses are apart. */
  lemma I2cExact(pending: seq<Controller>, news: seq<Controller>)
    requires AllOnBus(pending) && AllOnBus(news)
    ensures KeyedBy(ByAddress, pending, news) <==> AddressesApart(pending, news)
  {
    forall e, c | e in pending && c in news
      ensures (Matches(e.device, c.device) <==> ByAddress(e.device) == ByAddress(c.device)) <==>
              !(SameButLocation(e.device, c.device) && Contains(e.device.location, Address(c.device))
                && Address(e.device) != Address(c.device))
    {
      NotBoth(c.device);
      AddressOccurs(e.device);
    }
  }

  lemma I2cOnly(pending: seq<Controller>, news: seq<Controller>)
    requires Distinct(pending) && AllOnBus(pending) && AllOnBus(news) && AddressesApart(pending, news)
    ensures SameDevices(pending, news) <==>
            multiset(Keys(ByAddress, pending)) == multiset(Keys(ByAddress, news))
  {
    I2cExact(pending, news);
    SameExact(ByAddress, pending, news);
  }

  // ----- an input on which the I2C rule errs -----

  lemma LastComma(s: string, p: nat)
    requires OccursAt(s, ", ", p) && forall i :: p < i < |s| ==> s[i] != ','
    ensures LastSeparator(s) == Some(p)
  {
    forall i | i > p
      ensures !OccursAt(s, ", ", i)
    {
      if i <= |s| - 2 {
        assert s[i..i + 2][0] == s[i];
      }
    }
  }

  /** The address of a location that ends in ", " and a text without commas. */
  lemma AddressIs(d: Device, front: string, address: string)
    requires d.location == front + ", " + address && ',' !in address
    ensures LastSeparator(d.location) == Some(|front|) && Address(d) == address
  {
    var s := d.location;
    assert s[|front|..|front| + 2] == ", ";
    forall i | |front| < i < |s|
      ensures s[i] != ','
    {
      assert i >= |front| + 2 ==> s[i] == address[i - |front| - 2];
    }
    LastComma(s, |front|);
    assert s[|front| + 2..] == address;
  }

  /** An LED strip at decimal address 4 takes the place of one at address 48 on any bus:
      the scan finds the same devices, and they are not. */
  lemma I2cTakesWrongPlace(bus: string, was: Controller, now: Controller)
    requires was.device == now.device.(location := "I2C: " + bus + ", Address 48")
    requires now.device.location == "I2C: " + bus + ", Address 4"
    ensures SameDevices([was], [now])
    ensures multiset(Keys(ByAddress, [was])) != multiset(Keys(ByAddress, [now]))
  {
    WrongPlace(bus, was.device, now.device);
    assert Greedy([was], [now][..0]) == [];
    assert FirstMatch([was], [], now) == Some(was);
    assert Keys(ByAddress, [was]) == [ByAddress(was.device)];
    assert Keys(ByAddress, [now]) == [ByAddress(now.device)];
    assert ByAddress(was.device) in multiset(Keys(ByAddress, [was]));
  }

  lemma WrongPlace(bus: string, was: Device, now: Device)
    requires was == now.(location := "I2C: " + bus + ", Address 48")
    requires now.location == "I2C: " + bus + ", Address 4"
    ensures Matches(was, now) && ByAddress(was) != ByAddress(now)
  {
    var front := "I2C: " + bus;
    AddressIs(was, front, "Address 48");
    AddressIs(now, front, "Address 4");
    assert now.location[..5] == "I2C: " && now.location[0] == 'I';
    assert was.location == front + ", " + "Address 48";
    assert OccursAt(was.location, "Address 4", |front| + 2);
    assert |"Address 48"| != |"Address 4"|;
  }
}
