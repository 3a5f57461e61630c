/**
 * The trusted-peer table of modules/permissions/hash.c as it works in place:
 * an array of PERM_HASH_SIZE bucket chains that insert and empty update, and
 * that lookup and dump walk. Each method is proved against the functions of
 * module TrustedSpec.
 */
module PermHash {
  import opened Wrappers
  import opened TrustedSpec

  class TrustedTable {
    /** The bucket array; bucket i holds its chain of entries, head first. */
    const buckets: array<seq<Entry>>
    /** core_hash, which is not part of this model; perm_hash reduces it to a bucket. */
    const coreHash: string -> nat
    /** Set once free_hash_table has released the table; the handle is then invalid. */
    ghost var released: bool

    ghost predicate Valid()
      reads this, buckets
    {
      !released && buckets.Length == PERM_HASH_SIZE && Hashed(buckets[..], coreHash)
    }

    /** A table whose bucket array has been allocated and zeroed. */
    constructor (coreHash: string -> nat)
      ensures Valid() && fresh(buckets) && this.coreHash == coreHash
      ensures buckets[..] == EmptyTable()
    {
      buckets := new seq<Entry>[PERM_HASH_SIZE](_ => []);
      this.coreHash := coreHash;
      released := false;
    }

    /**
     * hash_table_insert: returns 1 when the row was inserted or skipped by the
     * "none" token, -1 when it failed; only a successful insert changes the
     * table, and then only the head of the row's bucket.
     */
    method Insert(srcIp: string, proto: string, pattern: Option<string>, tag: Option<string>, alloc: Alloc)
      returns (code: int)
      requires Valid()
      modifies buckets
      ensures Valid()
      ensures code == InsertCode(InsertOutcome(srcIp, proto, pattern, tag, alloc))
      ensures buckets[..] == AfterInsert(old(buckets[..]), coreHash, InsertOutcome(srcIp, proto, pattern, tag, alloc))
    {
      if !alloc.entry {
        return -1;
      }
      var p: Proto;
      match ParseProto(proto) {
        case Transport(q) => p := q;
        case Skip => return 1;
        case Unknown => return -1;
      }
      if !alloc.srcIp {
        return -1;
      }
      if pattern.Some? && !alloc.pattern {
        return -1;
      }
      if tag.Some? && !alloc.tag {
        return -1;
      }
      var e := Entry(srcIp, p, pattern, tag);
      var hashVal := PermHash(coreHash, e.srcIp);
      buckets[hashVal] := [e] + buckets[hashVal];
      InsertFrame(old(buckets[..]), coreHash, srcIp, proto, pattern, tag, alloc);
      code := 1;
    }

    /**
     * match_hash_table: the request's address selects a bucket, whose chain is
     * scanned head first for the first entry with the same address (up to case),
     * a wildcard or equal protocol, and no pattern or a pattern matching the From
     * URI; a pattern that does not compile ends the scan with an error.
     */
    method Match(srcIp: string, reqProto: Proto, from: Option<string>, rx: Regex, sink: TagSink)
      returns (r: Outcome)
      requires Valid()
      ensures r == Lookup(buckets[..], coreHash, srcIp, reqProto, from, rx, sink)
    {
      if from.None? {
        return FromUnparsed;
      }
      var uri := from.value;
      if |uri| > MAX_URI_SIZE {
        return UriTooLong;
      }
      var uriString := CText(uri);
      var chain := buckets[PermHash(coreHash, srcIp)];
      var i := 0;
      while i < |chain|
        invariant 0 <= i <= |chain|
        invariant ScanChain(chain[i..], srcIp, reqProto, uriString, rx) ==
                  ScanChain(chain, srcIp, reqProto, uriString, rx)
      {
        var e := chain[i];
        assert chain[i..][1..] == chain[i + 1..];
        if |e.srcIp| == |srcIp| && SameAddress(e.srcIp, srcIp) &&
           (e.proto == ProtoNone || e.proto == reqProto) {
          if e.pattern.None? {
            return Found(e, sink);
          }
          if !rx.compiles(e.pattern.value) {
            return BadPattern;
          }
          if rx.matches(e.pattern.value, uriString) {
            return Found(e, sink);
          }
        }
        i := i + 1;
      }
      return NoMatch;
    }

    /** empty_hash_table: every bucket becomes empty; the bucket array itself stays. */
    method Empty()
      requires Valid()
      modifies buckets
      ensures Valid()
      ensures buckets[..] == Emptied(old(buckets[..]))
    {
      for i := 0 to PERM_HASH_SIZE
        invariant forall j :: 0 <= j < i ==> buckets[j] == []
        invariant forall j :: i <= j < PERM_HASH_SIZE ==> buckets[j] == old(buckets[j])
      {
        buckets[i] := [];
      }
      EmptiedIdempotent(old(buckets[..]), coreHash);
    }

    /** hash_table_print: one line per entry, bucket after bucket, each chain head first. */
    method Print() returns (lines: seq<DumpLine>)
      requires Valid()
      ensures lines == Listing(buckets[..])
    {
      ghost var t := buckets[..];
      lines := [];
      for i := 0 to PERM_HASH_SIZE
        invariant lines == DumpUpTo(t, i)
      {
        var chain := buckets[i];
        var k := 0;
        while k < |chain|
          invariant 0 <= k <= |chain|
          invariant lines == DumpUpTo(t, i) + BucketLines(i, chain[..k])
        {
          BucketLinesSnoc(i, chain, k);
          lines := lines + [LineOf(i, chain[k])];
          k := k + 1;
        }
        assert chain[..k] == chain == t[i];
      }
    }
  }

  /** new_hash_table: a table of PERM_HASH_SIZE empty buckets, or null when allocation fails. */
  method NewHashTable(coreHash: string -> nat, allocOk: bool) returns (t: TrustedTable?)
    ensures t == null <==> !allocOk
    ensures t != null ==> fresh(t) && fresh(t.buckets) && t.Valid() && t.coreHash == coreHash
    ensures t != null ==> t.buckets.Length == PERM_HASH_SIZE && forall i :: 0 <= i < PERM_HASH_SIZE ==> t.buckets[i] == []
  {
    if !allocOk {
      return null;
    }
    t := new TrustedTable(coreHash);
  }

  /** free_hash_table: nothing for null; otherwise empty the table and release it. */
  method FreeHashTable(t: TrustedTable?)
    requires t != null ==> t.Valid()
    modifies if t == null then {} else {t, t.buckets}
    ensures t != null ==> t.released && t.buckets[..] == Emptied(old(t.buckets[..]))
  {
    if t == null {
      return;
    }
    t.Empty();
    t.released := true;
  }
}
