/** The Badger-backed storage (disk.go): an ordered map whose Range iterates over a snapshot. */
module Disk {
  import opened ByteStrings
  import opened Keys

  /** A stored item; `value` is None when the value cannot be fetched. */
  datatype Entry<+V> = Entry(key: Bytes, value: Option<V>)

  predicate Sorted<V(!new)>(es: seq<Entry<V>>) {
    forall i, j :: 0 <= i < j < |es| ==> Less(es[i].key, es[j].key)
  }

  /** What a scan of [seek, until] is to visit: every fetchable entry in the interval, in key order. */
  function Visible<V(!new)>(es: seq<Entry<V>>, seek: Bytes, until: Bytes): seq<(Bytes, V)> {
    if es == [] then []
    else
      var tail := Visible(es[1..], seek, until);
      if Leq(seek, es[0].key) && Leq(es[0].key, until) && es[0].value.Some?
      then [(es[0].key, es[0].value.value)] + tail else tail
  }

  /** It is sorted, has every fetchable entry of the interval, and nothing else. */
  lemma {:induction false} VisibleIs<V(!new)>(es: seq<Entry<V>>, seek: Bytes, until: Bytes)
    requires Sorted(es)
    ensures var items := Visible(es, seek, until);
      && (forall i, j :: 0 <= i < j < |items| ==> Less(items[i].0, items[j].0))
      && forall k, v :: (k, v) in items <==> Entry(k, Some(v)) in es && Leq(seek, k) && Leq(k, until)
  {
    hide Leq;
    if es != [] {
      VisibleIs(es[1..], seek, until);
      var items, tail := Visible(es, seek, until), Visible(es[1..], seek, until);
      forall j | 0 <= j < |tail| ensures Less(es[0].key, tail[j].0) {
        assert (tail[j].0, tail[j].1) in tail;
        assert Entry(tail[j].0, Some(tail[j].1)) in es[1..];
      }
    }
  }

  /** Calling back in order until the callback answers true; `S` is what the callback captures. */
  function Scan<S, V>(items: seq<(Bytes, V)>, f: (S, Bytes, V) -> (S, bool), s: S): S {
    if items == [] then s
    else
      var r := f(s, items[0].0, items[0].1);
      if r.1 then r.0 else Scan(items[1..], f, r.0)
  }

  lemma {:induction false} NothingVisible<V(!new)>(es: seq<Entry<V>>, seek: Bytes, until: Bytes)
    requires forall e :: e in es ==> !(Leq(seek, e.key) && Leq(e.key, until))
    ensures Visible(es, seek, until) == []
  {
    if es != [] { NothingVisible(es[1..], seek, until); }
  }

  /** Once an entry at or after `seek` is past `until`, so is everything after it. */
  lemma PastTheEnd<V(!new)>(es: seq<Entry<V>>, seek: Bytes, until: Bytes)
    requires Sorted(es) && es != [] && !Leq(es[0].key, until)
    ensures Visible(es, seek, until) == []
  {
    forall e | e in es ensures !Leq(e.key, until) {
      var i :| 0 <= i < |es| && es[i] == e;
      if i > 0 && Leq(e.key, until) { LeqTransitive(es[0].key, e.key, until); }
    }
    NothingVisible(es, seek, until);
  }

  /** An entry at or after `seek` that lacks the common prefix is past `until`. */
  lemma OffPrefixIsPast(seek: Bytes, key: Bytes, until: Bytes)
    requires Leq(seek, key) && !(CommonPrefix(seek, until) <= key)
    ensures !Leq(key, until)
  {
    if Leq(key, until) { BetweenSharesPrefix(seek, key, until); }
  }

  lemma {:induction false} VisibleAfterSeek<V(!new)>(es: seq<Entry<V>>, seek: Bytes, until: Bytes, n: nat)
    requires n <= |es| && forall i :: 0 <= i < n ==> !Leq(seek, es[i].key)
    ensures Visible(es, seek, until) == Visible(es[n..], seek, until)
  {
    if n > 0 {
      assert es[1..][n - 1..] == es[n..];
      VisibleAfterSeek(es[1..], seek, until, n - 1);
    } else {
      assert es[0..] == es;
    }
  }

  lemma NothingToScan<S, V>(f: (S, Bytes, V) -> (S, bool), s: S) ensures Scan([], f, s) == s { }

  /** One turn of the iteration. */
  lemma ScanNext<S, V(!new)>(es: seq<Entry<V>>, i: nat, seek: Bytes, until: Bytes, f: (S, Bytes, V) -> (S, bool), s: S)
    requires i < |es| && Leq(seek, es[i].key) && Leq(es[i].key, until)
    ensures Scan(Visible(es[i..], seek, until), f, s)
         == if es[i].value.None? then Scan(Visible(es[i + 1..], seek, until), f, s)
            else
              var r := f(s, es[i].key, es[i].value.value);
              if r.1 then r.0 else Scan(Visible(es[i + 1..], seek, until), f, r.0)
  {
    hide Leq;
    var rest, tail := es[i..], Visible(es[i + 1..], seek, until);
    assert rest[1..] == es[i + 1..];
    if es[i].value.Some? {
      var items := [(es[i].key, es[i].value.value)] + tail;
      assert Visible(rest, seek, until) == items && items[1..] == tail;
    }
  }

  function Remove<V(!new)>(es: seq<Entry<V>>, keys: seq<Bytes>): (r: seq<Entry<V>>)
    ensures forall e :: e in r <==> e in es && e.key !in keys
  {
    if es == [] then []
    else
      var tail := Remove(es[1..], keys);
      if es[0].key in keys then tail else [es[0]] + tail
  }

  lemma {:induction false} RemoveKeepsOrder<V(!new)>(es: seq<Entry<V>>, keys: seq<Bytes>)
    requires Sorted(es)
    ensures Sorted(Remove(es, keys))
  {
    if es != [] {
      RemoveKeepsOrder(es[1..], keys);
      var tail := Remove(es[1..], keys);
      forall j | 0 <= j < |tail| ensures Less(es[0].key, tail[j].key) {
        assert tail[j] in es[1..];
      }
    }
  }

  lemma {:induction false} RemoveTwice<V(!new)>(es: seq<Entry<V>>, a: seq<Bytes>, b: seq<Bytes>)
    ensures Remove(Remove(es, a), b) == Remove(es, a + b)
  {
    if es != [] { RemoveTwice(es[1..], a, b); }
  }

  /** Writing a key: replaces its entry or takes its place in the order. */
  function Insert<V(!new)>(es: seq<Entry<V>>, key: Bytes, value: V): (r: seq<Entry<V>>)
    requires Sorted(es)
    ensures Sorted(r)
    ensures forall e :: e in r <==> e == Entry(key, Some(value)) || (e in es && e.key != key)
  {
    if es == [] then [Entry(key, Some(value))]
    else if es[0].key == key then
      assert forall e :: e in es[1..] ==> e.key != key;
      [Entry(key, Some(value))] + es[1..]
    else if Leq(key, es[0].key) then
      assert forall i :: 0 <= i < |es| ==> Less(key, es[i].key) by {
        forall i | 0 <= i < |es| ensures Less(key, es[i].key) {
          if i > 0 { LessTransitive(key, es[0].key, es[i].key); }
        }
      }
      [Entry(key, Some(value))] + es
    else
      LessIsNotGeq(es[0].key, key);
      var tail := Insert(es[1..], key, value);
      assert forall e :: e in tail ==> Less(es[0].key, e.key);
      [es[0]] + tail
  }

  datatype Outcome<+T> = Success(value: T) | Closed | Failure

  /** How the database answers a transaction's Delete. */
  datatype Reply = Accepted | TxnTooBig | Rejected

  class Storage<V(!new)> {
    var entries: seq<Entry<V>>
    var closed: bool

    constructor ()
      ensures entries == [] && !closed
    {
      entries, closed := [], false;
    }

    method Append(key: Bytes, value: V) returns (r: Outcome<()>)
      requires Sorted(entries)
      modifies this`entries
      ensures Sorted(entries)
      ensures r.Closed? <==> closed
      ensures entries == if r.Success? then Insert(old(entries), key, value) else old(entries)
    {
      if closed { return Closed; }
      var committed: bool := *;
      if !committed { return Failure; }
      entries := Insert(entries, key, value);
      return Success(());
    }

    /** Range: seeks, stays within the common prefix, stops past `until`. It calls back exactly as a scan of the
        whole interval would. */
    method Range<S>(seek: Bytes, until: Bytes, f: (S, Bytes, V) -> (S, bool), init: S) returns (r: Outcome<S>)
      requires Sorted(entries)
      ensures closed ==> r == Closed
      ensures !closed ==> r == Success(Scan(Visible(entries, seek, until), f, init))
    {
      hide Leq, CommonPrefix, Visible, Scan;
      if closed { return Closed; }
      var prefix := PrefixOf(seek, until);
      var i, s := 0, init;

      // it.Seek(seek)
      while i < |entries| && !Leq(seek, entries[i].key)
        invariant 0 <= i <= |entries| && forall j :: 0 <= j < i ==> !Leq(seek, entries[j].key)
      {
        i := i + 1;
      }
      VisibleAfterSeek(entries, seek, until, i);

      // it.Valid(); it.Next()
      while i < |entries| && prefix <= entries[i].key
        invariant 0 <= i <= |entries| && (i < |entries| ==> Leq(seek, entries[i].key))
        invariant Scan(Visible(entries[i..], seek, until), f, s) == Scan(Visible(entries, seek, until), f, init)
      {
        var e := entries[i];
        if !Leq(e.key, until) {
          PastTheEnd(entries[i..], seek, until);
          NothingToScan(f, s);
          return Success(s);
        }
        ScanNext(entries, i, seek, until, f, s);
        if e.value.Some? {
          var (s', stop) := f(s, e.key, e.value.value);
          s := s';
          if stop { return Success(s); }
        }
        if i + 1 < |entries| { LeqTransitive(seek, e.key, entries[i + 1].key); }
        i := i + 1;
      }
      if i < |entries| {
        OffPrefixIsPast(seek, entries[i].key, until);
        PastTheEnd(entries[i..], seek, until);
      } else {
        NothingVisible(entries[i..], seek, until);
      }
      NothingToScan(f, s);
      return Success(s);
    }

    /** Delete: one transaction after another, whatever the database answers. On success all the keys and nothing
        else are gone; on failure exactly a prefix of the list is gone. */
    method Delete(keys: seq<Bytes>) returns (r: Outcome<()>)
      modifies this`entries
      ensures (r.Closed? <==> closed) && (closed ==> entries == old(entries))
      ensures r.Success? ==> entries == Remove(old(entries), keys)
      ensures r.Failure? ==> exists n :: 0 <= n <= |keys| && entries == Remove(old(entries), keys[..n])
    {
      hide Remove;
      if closed { return Closed; }
      ghost var before, done := entries, 0;
      assert entries == Remove(before, keys[..0]) by { RemoveNone(before); }
      var txn: seq<Bytes> := [];
      for i := 0 to |keys|
        invariant 0 <= done <= i && txn == keys[done..i]
        invariant entries == Remove(before, keys[..done])
      {
        var reply: Reply := *;
        if reply.TxnTooBig? {
          var committed: bool := *;
          if !committed { return Failure; }
          RemoveMore(before, keys, done, i);
          entries, txn, done := Remove(entries, txn), [], i;
          reply := *;
          if !reply.Accepted? { return Failure; }
        } else if reply.Rejected? {
          return Failure;
        }
        txn := txn + [keys[i]];
      }
      var committed: bool := *;
      if !committed { return Failure; }
      RemoveMore(before, keys, done, |keys|);
      assert keys[..|keys|] == keys;
      entries := Remove(entries, txn);
      return Success(());
    }
  }

  /** Committing the next stretch of a list after a prefix of it. */
  lemma RemoveMore<V(!new)>(es: seq<Entry<V>>, keys: seq<Bytes>, done: nat, i: nat)
    requires done <= i <= |keys|
    ensures Remove(Remove(es, keys[..done]), keys[done..i]) == Remove(es, keys[..i])
  {
    RemoveTwice(es, keys[..done], keys[done..i]);
    assert keys[..done] + keys[done..i] == keys[..i];
  }

  lemma {:induction false} RemoveNone<V(!new)>(es: seq<Entry<V>>)
    ensures Remove(es, []) == es
  {
    if es != [] { RemoveNone(es[1..]); }
  }
}
