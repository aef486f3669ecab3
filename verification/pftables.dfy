/**
 * `PfTable`: an in-memory set of table entries mirrored into one pf table.
 * Every change is made to the set first and then the whole set is pushed
 * to the kernel with one replace-all request; the set is read from the
 * kernel once, when the table is opened.
 */
module PfTables {
  import opened Wrappers
  import opened Text
  import opened PfAddr
  import opened PfKernel

  /** The initial record capacity of the fetch loop. */
  const DefaultBufSize: nat := 20

  predicate ValidSet(s: set<TableAddr>)
  {
    forall a :: a in s ==> ValidAddr(a)
  }

  /** The records of a set of entries. */
  function EncodedSet(s: set<TableAddr>): set<PfrAddr>
  {
    set a | a in s && ValidAddr(a) :: Encoded(a)
  }

  /** The printed forms of a set of entries. */
  function TextSet(s: set<TableAddr>): set<string>
  {
    set a | a in s && ValidAddr(a) :: ToText(a)
  }

  function SetOf(xs: seq<TableAddr>): set<TableAddr>
  {
    set x | x in xs
  }

  /**
   * `[PFTableAddr(a) for a in records]`: every record decodes, in order, or
   * the list fails with the error of a record that does not.
   */
  function DecodeAll(recs: seq<PfrAddr>): (r: Result<seq<TableAddr>, Error>)
    ensures r.Ok? <==> forall i :: 0 <= i < |recs| ==> FromStruct(recs[i]).Ok?
    ensures r.Ok? ==> |r.value| == |recs| && forall i :: 0 <= i < |recs| ==> FromStruct(recs[i]) == Ok(r.value[i])
    ensures r.Err? ==> exists i :: 0 <= i < |recs| && FromStruct(recs[i]) == Err(r.error)
  {
    if recs == [] then Ok([])
    else
      var head :- FromStruct(recs[0]);
      var tail :- DecodeAll(recs[1..]);
      var r := [head] + tail;
      assert forall i :: 1 <= i < |recs| ==> recs[i] == recs[1..][i - 1] && r[i] == tail[i - 1];
      Ok(r)
  }

  /** Decoding the records of a list of entries gives back the list. */
  lemma DecodeEncoded(xs: seq<TableAddr>)
    requires forall i :: 0 <= i < |xs| ==> ValidAddr(xs[i])
    ensures DecodeAll(seq(|xs|, i requires 0 <= i < |xs| && ValidAddr(xs[i]) => Encoded(xs[i]))) == Ok(xs)
  {
    var recs := seq(|xs|, i requires 0 <= i < |xs| && ValidAddr(xs[i]) => Encoded(xs[i]));
    forall i | 0 <= i < |xs| ensures FromStruct(recs[i]) == Ok(xs[i]) {
      StructRoundTrip(xs[i]);
    }
    var r := DecodeAll(recs);
    assert r.value == xs;
  }

  /** Records that `to_struct` could have produced decode to a set whose records are exactly them. */
  lemma {:induction false} CanonicalSynced(recs: seq<PfrAddr>)
    requires forall i :: 0 <= i < |recs| ==> CanonicalRecord(recs[i])
    requires DecodeAll(recs).Ok?
    ensures EncodedSet(SetOf(DecodeAll(recs).value)) == RecordSet(recs)
  {
    var xs := DecodeAll(recs).value;
    forall rec | rec in RecordSet(recs) ensures rec in EncodedSet(SetOf(xs)) {
      var i :| 0 <= i < |recs| && recs[i] == rec;
      RecordRoundTrip(rec);
      assert xs[i] in SetOf(xs);
    }
    forall rec | rec in EncodedSet(SetOf(xs)) ensures rec in RecordSet(recs) {
      var a :| a in SetOf(xs) && ValidAddr(a) && Encoded(a) == rec;
      var i :| 0 <= i < |xs| && xs[i] == a;
      RecordRoundTrip(recs[i]);
    }
  }

  /** Adding an absent entry adds exactly its record. */
  lemma EncodedSetInsert(s: set<TableAddr>, e: TableAddr)
    requires ValidSet(s) && ValidAddr(e) && e !in s
    ensures EncodedSet(s + {e}) - EncodedSet(s) == {Encoded(e)}
    ensures EncodedSet(s) - EncodedSet(s + {e}) == {}
  {
    forall a | a in s ensures Encoded(a) != Encoded(e) {
      if Encoded(a) == Encoded(e) {
        EncodedInjective(a, e);
      }
    }
    assert Encoded(e) in EncodedSet(s + {e});
  }

  /** Removing a present entry removes exactly its record. */
  lemma EncodedSetDelete(s: set<TableAddr>, e: TableAddr)
    requires ValidSet(s) && e in s
    ensures EncodedSet(s) - EncodedSet(s - {e}) == {Encoded(e)}
    ensures EncodedSet(s - {e}) - EncodedSet(s) == {}
  {
    EncodedSetInsert(s - {e}, e);
    assert s - {e} + {e} == s;
  }

  /** One record per entry: distinct entries never share a record. */
  lemma {:induction false} EncodedSetSize(s: set<TableAddr>)
    requires ValidSet(s)
    ensures |EncodedSet(s)| == |s|
  {
    if s != {} {
      var e :| e in s;
      var rest := s - {e};
      EncodedSetSize(rest);
      EncodedSetInsert(rest, e);
      assert rest + {e} == s;
      OneMore(EncodedSet(rest), EncodedSet(s), Encoded(e));
    }
  }

  /** A set that gains exactly one element and loses none has one element more. */
  lemma OneMore<T>(a: set<T>, b: set<T>, x: T)
    requires b - a == {x} && a - b == {}
    ensures |b| == |a| + 1
  {
    assert b == a + {x} && x !in a;
  }

  /** Pushing a set with one more member to a table in step reports one record added. */
  lemma InsertCount(before: seq<PfrAddr>, after: seq<PfrAddr>, s: set<TableAddr>, e: TableAddr)
    requires ValidSet(s) && ValidAddr(e) && e !in s
    requires RecordSet(before) == EncodedSet(s) && RecordSet(after) == EncodedSet(s + {e})
    ensures ReplaceCounts(before, after).nadd == 1
  {
    EncodedSetInsert(s, e);
  }

  /** Pushing a set with one member fewer to a table in step reports one record deleted. */
  lemma DeleteCount(before: seq<PfrAddr>, after: seq<PfrAddr>, s: set<TableAddr>, e: TableAddr)
    requires ValidSet(s) && e in s
    requires RecordSet(before) == EncodedSet(s) && RecordSet(after) == EncodedSet(s - {e})
    ensures ReplaceCounts(before, after).ndel == 1
  {
    EncodedSetDelete(s, e);
  }

  /** Pushing the empty set to a table in step reports every member deleted. */
  lemma ClearCount(before: seq<PfrAddr>, after: seq<PfrAddr>, s: set<TableAddr>)
    requires ValidSet(s)
    requires RecordSet(before) == EncodedSet(s) && RecordSet(after) == {}
    ensures ReplaceCounts(before, after).ndel == |s|
  {
    EncodedSetSize(s);
    assert RecordSet(before) - RecordSet(after) == RecordSet(before);
  }

  /**
   * What `list` returns for the set `s`: one printed entry per member, no
   * two alike, in some order.
   */
  ghost predicate IsListing(texts: seq<string>, s: set<TableAddr>)
  {
    && |texts| == |s|
    && (forall i, j :: 0 <= i < j < |texts| ==> texts[i] != texts[j])
    && (forall t :: t in texts <==> t in TextSet(s))
  }

  /** A listing parses back to the set: each line is a member and each member has its line. */
  lemma ListingParses(texts: seq<string>, s: set<TableAddr>)
    requires ValidSet(s) && IsListing(texts, s)
    ensures forall i :: 0 <= i < |texts| ==> ParseText(texts[i]).Ok? && ParseText(texts[i]).value in s
    ensures forall a :: a in s ==> ToText(a) in texts
  {
    forall i | 0 <= i < |texts| ensures ParseText(texts[i]).Ok? && ParseText(texts[i]).value in s {
      assert texts[i] in TextSet(s);
      var a :| a in s && ValidAddr(a) && ToText(a) == texts[i];
      TextRoundTrip(a);
    }
    forall a | a in s ensures ToText(a) in texts {
      assert ToText(a) in TextSet(s);
    }
  }

  /** The listing of an empty table is empty. */
  lemma EmptyListing(texts: seq<string>)
    requires IsListing(texts, {})
    ensures texts == []
  {
  }

  /**
   * The kernel tables `after` are `before` with the table `name` replaced by
   * one record per member of `s`, and no other table changed.
   */
  ghost predicate ReplacedBy(before: map<string, seq<PfrAddr>>, after: map<string, seq<PfrAddr>>, name: string, s: set<TableAddr>)
  {
    && name in after
    && after == before[name := after[name]]
    && |after[name]| == |s|
    && RecordSet(after[name]) == EncodedSet(s)
  }

  /**
   * Since the kernel held `before`, either no push has been taken and the
   * tables are as they were, or the table `name` now holds the set `s` and
   * no other table has changed.
   */
  ghost predicate Mirrors(before: map<string, seq<PfrAddr>>, after: map<string, seq<PfrAddr>>, name: string, s: set<TableAddr>)
  {
    after == before || ReplacedBy(before, after, name, s)
  }

  /** Of several pushes of one table, the kernel shows only the last one taken. */
  lemma MirrorsStep(start: map<string, seq<PfrAddr>>, mid: map<string, seq<PfrAddr>>, after: map<string, seq<PfrAddr>>,
                    name: string, s0: set<TableAddr>, s: set<TableAddr>)
    requires Mirrors(start, mid, name, s0) && ReplacedBy(mid, after, name, s)
    ensures ReplacedBy(start, after, name, s)
  {
    if mid != start {
      assert after == start[name := mid[name]][name := after[name]];
    }
  }

  /** A pf table mirrored by an in-memory set of entries. */
  class PfTable {
    const dev: PfDevice
    const name: string
    var addresses: set<TableAddr>

    ghost predicate Valid()
      reads this
    {
      ValidSet(addresses)
    }

    /** The kernel table holds exactly the records of the set. */
    ghost predicate Synced()
      reads this, dev
    {
      Valid() && name in dev.tables && RecordSet(dev.tables[name]) == EncodedSet(addresses)
    }

    /**
     * The kernel table holds one record per member of the set, and no other
     * table of `before` has changed.
     */
    ghost predicate Replaced(before: map<string, seq<PfrAddr>>)
      reads this, dev
    {
      ReplacedBy(before, dev.tables, name, addresses)
    }

    /**
     * The kernel side of pushing the set while the kernel held `before`: an
     * unknown table is ESRCH, a refused push fails with the kernel's error
     * and leaves every table as it was, and a push that succeeds leaves the
     * table holding one record per member.
     */
    ghost predicate Pushed<T>(before: map<string, seq<PfrAddr>>, r: Result<T, Error>)
      reads this, dev
    {
      && (name !in before ==> r == Err(IoctlFailed(Esrch)))
      && (r.Err? ==> r.error.IoctlFailed? && dev.tables == before)
      && (r.Ok? ==> name in before && Replaced(before))
    }

    constructor(dev: PfDevice, name: string)
      ensures this.dev == dev && this.name == name && addresses == {}
    {
      this.dev := dev;
      this.name := name;
      addresses := {};
    }

    /**
     * `PfTable(name)`: the table's entries are read from the kernel once. The
     * kernel's own errors and the records that do not decode make opening
     * fail.
     */
    static method Open(dev: PfDevice, name: string) returns (r: Result<PfTable, Error>)
      ensures name !in dev.tables ==> r == Err(IoctlFailed(Esrch))
      ensures name in dev.tables && DecodeAll(dev.tables[name]).Err? ==> r == Err(DecodeAll(dev.tables[name]).error)
      ensures name in dev.tables && DecodeAll(dev.tables[name]).Ok? ==>
        && r.Ok? && fresh(r.value) && r.value.dev == dev && r.value.name == name && r.value.Valid()
        && r.value.addresses == SetOf(DecodeAll(dev.tables[name]).value)
      ensures r.Ok? && (forall i :: 0 <= i < |dev.tables[name]| ==> CanonicalRecord(dev.tables[name][i])) ==> r.value.Synced()
    {
      var t := new PfTable(dev, name);
      var got := t.GetAddresses(DefaultBufSize);
      if got.Err? {
        return Err(got.error);
      }
      t.addresses := SetOf(got.value);
      if forall i :: 0 <= i < |dev.tables[name]| ==> CanonicalRecord(dev.tables[name][i]) {
        CanonicalSynced(dev.tables[name]);
      }
      return Ok(t);
    }

    /**
     * `_get_addresses(buf_size)`: fetch into a buffer of `bufSize` records;
     * while the kernel reports more records than fit, grow the buffer to the
     * reported size and fetch again. The result is the whole table, decoded.
     */
    method GetAddresses(bufSize: nat) returns (r: Result<seq<TableAddr>, Error>)
      ensures name !in dev.tables ==> r == Err(IoctlFailed(Esrch))
      ensures name in dev.tables ==> r == DecodeAll(dev.tables[name])
    {
      var size: nat := bufSize;
      var buffer: array<PfrAddr>;
      var count: nat;
      while true
        decreases if name in dev.tables && size < |dev.tables[name]| then 1 else 0
      {
        buffer := new PfrAddr[size](_ => ZeroRecord());
        var got := dev.GetAddrs(name, buffer);
        if got.Err? {
          return Err(got.error);
        }
        count := got.value;
        if count <= size {
          break;
        }
        size := count;
      }
      assert buffer[..count] == dev.tables[name];
      return DecodeAll(buffer[..count]);
    }

    /**
     * `_set_addresses`: a buffer with the record of every member, one each,
     * replaces the kernel table; the kernel's counts come back.
     */
    method SetAddresses() returns (r: Result<SetCounts, Error>)
      requires Valid()
      modifies dev
      ensures Pushed(old(dev.tables), r)
      ensures r.Ok? ==> name in old(dev.tables) && r.value == ReplaceCounts(old(dev.tables)[name], dev.tables[name])
    {
      var buffer := new PfrAddr[|addresses|](_ => ZeroRecord());
      var rest := addresses;
      var i := 0;
      while rest != {}
        modifies buffer
        invariant rest <= addresses && i + |rest| == |addresses|
        invariant RecordSet(buffer[..i]) == EncodedSet(addresses - rest)
        decreases |rest|
      {
        var a :| a in rest;
        var rec := ToStruct(a);
        ghost var before := buffer[..i];
        buffer[i] := rec;
        assert buffer[..i + 1] == before + [rec];
        assert EncodedSet(addresses - (rest - {a})) == EncodedSet(addresses - rest) + {rec};
        rest := rest - {a};
        i := i + 1;
      }
      assert buffer[..] == buffer[..i];
      r := dev.SetAddrs(name, buffer);
    }

    /**
     * The outcome of inserting `e` into the set `before` while the kernel
     * held `tablesBefore`: `e` is in the set afterwards; a member already
     * present gives 0 without a kernel request; otherwise the set is pushed
     * and the kernel's added count comes back, and a failing push leaves `e`
     * in the set and the kernel as it was.
     */
    ghost predicate Inserted(e: TableAddr, before: set<TableAddr>, tablesBefore: map<string, seq<PfrAddr>>, r: Result<nat, Error>)
      reads this, dev
    {
      && addresses == before + {e}
      && (e in before ==> r == Ok(0) && dev.tables == tablesBefore)
      && (e !in before ==> Pushed(tablesBefore, r))
      && (e !in before && r.Ok? && name in tablesBefore ==>
            r.value == ReplaceCounts(tablesBefore[name], dev.tables[name]).nadd)
    }

    /** The outcome of removing `e` from `before`, as `Inserted` with the deleted count. */
    ghost predicate Deleted(e: TableAddr, before: set<TableAddr>, tablesBefore: map<string, seq<PfrAddr>>, r: Result<nat, Error>)
      reads this, dev
    {
      && addresses == before - {e}
      && (e !in before ==> r == Ok(0) && dev.tables == tablesBefore)
      && (e in before ==> Pushed(tablesBefore, r))
      && (e in before && r.Ok? && name in tablesBefore ==>
            r.value == ReplaceCounts(tablesBefore[name], dev.tables[name]).ndel)
    }

    /** The locked section of `add`: insert a parsed entry and push the set when it grew. */
    method Insert(e: TableAddr) returns (r: Result<nat, Error>)
      requires Valid() && ValidAddr(e)
      modifies this, dev
      ensures Valid() && Inserted(e, old(addresses), old(dev.tables), r)
      ensures old(Synced()) && r.Ok? ==> Synced() && r.value == (if e in old(addresses) then 0 else 1)
      ensures old(Synced()) && r.Err? ==> !Synced()
    {
      if e in addresses {
        return Ok(0);
      }
      ghost var wasSynced := Synced();
      ghost var before := addresses;
      addresses := addresses + {e};
      var counts := SetAddresses();
      if counts.Err? {
        if wasSynced {
          EncodedSetInsert(before, e);
        }
        return Err(counts.error);
      }
      if wasSynced {
        InsertCount(old(dev.tables)[name], dev.tables[name], before, e);
      }
      return Ok(counts.value.nadd);
    }

    /** The locked section of `remove`: remove a parsed entry and push the set when it shrank. */
    method Delete(e: TableAddr) returns (r: Result<nat, Error>)
      requires Valid()
      modifies this, dev
      ensures Valid() && Deleted(e, old(addresses), old(dev.tables), r)
      ensures old(Synced()) && r.Ok? ==> Synced() && r.value == (if e in old(addresses) then 1 else 0)
      ensures old(Synced()) && r.Err? ==> !Synced()
    {
      if e !in addresses {
        return Ok(0);
      }
      ghost var wasSynced := Synced();
      ghost var before := addresses;
      addresses := addresses - {e};
      var counts := SetAddresses();
      if counts.Err? {
        if wasSynced {
          EncodedSetDelete(before, e);
        }
        return Err(counts.error);
      }
      if wasSynced {
        DeleteCount(old(dev.tables)[name], dev.tables[name], before, e);
      }
      return Ok(counts.value.ndel);
    }

    /**
     * `add(address)`: the text is parsed before anything else, so an invalid
     * address changes nothing; a valid one is inserted.
     */
    method Add(address: string) returns (r: Result<nat, Error>)
      requires Valid()
      modifies this, dev
      ensures Valid()
      ensures ParseText(address).Err? ==>
        r == Err(InvalidAddress) && addresses == old(addresses) && dev.tables == old(dev.tables)
      ensures ParseText(address).Ok? ==> Inserted(ParseText(address).value, old(addresses), old(dev.tables), r)
      ensures old(Synced()) && (r.Ok? || r == Err(InvalidAddress)) ==> Synced()
      ensures old(Synced()) && r.Err? && r.error.IoctlFailed? ==> !Synced()
      ensures old(Synced()) && r.Ok? && ParseText(address).Ok? ==>
        r.value == (if ParseText(address).value in old(addresses) then 0 else 1)
    {
      var parsed := ParseText(address);
      if parsed.Err? {
        return Err(parsed.error);
      }
      r := Insert(parsed.value);
    }

    /**
     * `remove(address)`: the text is parsed before anything else, so an
     * invalid address changes nothing; a valid one is removed.
     */
    method Remove(address: string) returns (r: Result<nat, Error>)
      requires Valid()
      modifies this, dev
      ensures Valid()
      ensures ParseText(address).Err? ==>
        r == Err(InvalidAddress) && addresses == old(addresses) && dev.tables == old(dev.tables)
      ensures ParseText(address).Ok? ==> Deleted(ParseText(address).value, old(addresses), old(dev.tables), r)
      ensures old(Synced()) && (r.Ok? || r == Err(InvalidAddress)) ==> Synced()
      ensures old(Synced()) && r.Err? && r.error.IoctlFailed? ==> !Synced()
      ensures old(Synced()) && r.Ok? && ParseText(address).Ok? ==>
        r.value == (if ParseText(address).value in old(addresses) then 1 else 0)
    {
      var parsed := ParseText(address);
      if parsed.Err? {
        return Err(parsed.error);
      }
      r := Delete(parsed.value);
    }

    /** `list()`: the printed form of every member. */
    method List() returns (texts: seq<string>)
      requires Valid()
      ensures IsListing(texts, addresses)
    {
      texts := [];
      var rest := addresses;
      while rest != {}
        invariant rest <= addresses && |texts| + |rest| == |addresses|
        invariant forall i, j :: 0 <= i < j < |texts| ==> texts[i] != texts[j]
        invariant forall t :: t in texts <==> t in TextSet(addresses - rest)
        decreases |rest|
      {
        var a :| a in rest;
        forall b | b in addresses - rest ensures ToText(b) != ToText(a) {
          if ToText(b) == ToText(a) {
            TextInjective(a, b);
          }
        }
        assert TextSet(addresses - (rest - {a})) == TextSet(addresses - rest) + {ToText(a)};
        texts := texts + [ToText(a)];
        rest := rest - {a};
      }
    }

    /**
     * `clear()`: the set is emptied and pushed; the kernel's deleted count
     * comes back. A failing push leaves the set empty and the kernel as it
     * was, so a table that held entries is then out of step.
     */
    method Clear() returns (r: Result<nat, Error>)
      requires Valid()
      modifies this, dev
      ensures Valid() && addresses == {}
      ensures Pushed(old(dev.tables), r)
      ensures r.Ok? ==> name in old(dev.tables) && r.value == ReplaceCounts(old(dev.tables)[name], dev.tables[name]).ndel
      ensures old(Synced()) && r.Ok? ==> Synced() && r.value == |old(addresses)|
      ensures old(Synced()) && r.Err? && old(addresses) != {} ==> !Synced()
    {
      ghost var wasSynced := Synced();
      ghost var before := addresses;
      addresses := {};
      var counts := SetAddresses();
      if counts.Err? {
        if wasSynced {
          EncodedSetSize(before);
          assert EncodedSet({}) == {};
        }
        return Err(counts.error);
      }
      if wasSynced {
        ClearCount(old(dev.tables)[name], dev.tables[name], before);
      }
      return Ok(counts.value.ndel);
    }
  }
}
