/**
 * The two pf ioctls the table mirror issues on `/dev/pf`, as an oracle over
 * the kernel's tables: each table name holds the records the kernel would
 * return. The request structure `struct pfioc_table` is replaced by the
 * method parameters: the table name, the record buffer and its capacity
 * (`pfrio_size` going in), and the counts coming back.
 */
module PfKernel {
  import opened Wrappers
  import opened PfAddr

  /** The records of a table, forgetting their order. */
  function RecordSet(recs: seq<PfrAddr>): set<PfrAddr>
  {
    set r | r in recs
  }

  function Min(a: nat, b: nat): nat
  {
    if a < b then a else b
  }

  /** The counts `pfrio_ndel`, `pfrio_nadd` and `pfrio_nchange` of a replace-all. */
  datatype SetCounts = SetCounts(ndel: nat, nadd: nat, nchange: nat)

  /** The counts a replace-all from `before` to `after` reports. */
  function ReplaceCounts(before: seq<PfrAddr>, after: seq<PfrAddr>): (c: SetCounts)
    ensures c.ndel <= |RecordSet(before)| && c.nadd <= |RecordSet(after)|
    ensures RecordSet(before) == RecordSet(after) ==> c == SetCounts(0, 0, 0)
  {
    assert RecordSet(before) - RecordSet(after) <= RecordSet(before);
    assert RecordSet(after) - RecordSet(before) <= RecordSet(after);
    SetCounts(|RecordSet(before) - RecordSet(after)|, |RecordSet(after) - RecordSet(before)|, 0)
  }

  const Eperm: nat := 1
  const Enomem: nat := 12
  const Eacces: nat := 13
  const Efault: nat := 14
  const Einval: nat := 22

  /**
   * The errors other than ESRCH that DIOCRSETADDRS can give for a table that
   * exists: a constant table or a raised securelevel (EPERM), no memory for
   * the entries (ENOMEM), a device opened read-only (EACCES), a buffer the
   * kernel cannot read (EFAULT) and a record it rejects (EINVAL).
   */
  const SetAddrsErrors: set<nat> := {Eperm, Enomem, Eacces, Efault, Einval}

  /** The open `/dev/pf` device and the tables behind it. */
  class PfDevice {
    var tables: map<string, seq<PfrAddr>>

    constructor(tables: map<string, seq<PfrAddr>>)
      ensures this.tables == tables
    {
      this.tables := tables;
    }

    /**
     * DIOCRGETADDRS: copies as many of the table's records as the buffer
     * holds and reports the table's true size; an unknown table is ESRCH.
     */
    method GetAddrs(name: string, buffer: array<PfrAddr>) returns (r: Result<nat, Error>)
      modifies buffer
      ensures name !in tables ==> r == Err(IoctlFailed(Esrch)) && buffer[..] == old(buffer[..])
      ensures name in tables ==>
        && r == Ok(|tables[name]|)
        && var n := Min(|tables[name]|, buffer.Length);
           buffer[..n] == tables[name][..n] && buffer[n..] == old(buffer[n..])
    {
      if name !in tables {
        return Err(IoctlFailed(Esrch));
      }
      var recs := tables[name];
      var n := Min(|recs|, buffer.Length);
      var i := 0;
      while i < n
        invariant 0 <= i <= n
        invariant forall k :: 0 <= k < i ==> buffer[k] == recs[k]
        invariant forall k :: i <= k < buffer.Length ==> buffer[k] == old(buffer[k])
      {
        buffer[i] := recs[i];
        i := i + 1;
      }
      return Ok(|recs|);
    }

    /**
     * DIOCRSETADDRS: the table's contents become the buffer's records; the
     * reply counts the records that left and the records that arrived. An
     * unknown table is ESRCH. For a table that exists the kernel may still
     * refuse the request with one of `SetAddrsErrors`; a refused request
     * changes nothing.
     */
    method SetAddrs(name: string, buffer: array<PfrAddr>) returns (r: Result<SetCounts, Error>)
      modifies this
      ensures name !in old(tables) ==> r == Err(IoctlFailed(Esrch))
      ensures r.Err? ==> r.error.IoctlFailed? && tables == old(tables)
      ensures r.Err? && name in old(tables) ==> r.error.errno in SetAddrsErrors
      ensures r.Ok? ==>
        && name in old(tables)
        && tables == old(tables)[name := buffer[..]]
        && r.value == ReplaceCounts(old(tables)[name], buffer[..])
    {
      if name !in tables {
        return Err(IoctlFailed(Esrch));
      }
      var refused: bool :| true;
      if refused {
        assert Einval in SetAddrsErrors;
        var errno :| errno in SetAddrsErrors;
        return Err(IoctlFailed(errno));
      }
      var counts := ReplaceCounts(tables[name], buffer[..]);
      tables := tables[name := buffer[..]];
      return Ok(counts);
    }
  }
}
