/** The name-value server as a map from names to creator and value. */
module KvSpec {
  datatype Entry = Entry(creator: int, value: string)

  type Contents = map<string, Entry>

  /** A datagram after parsing: too few parts, four parts, or exactly three. */
  datatype Request =
    | Malformed
    | WithValue(action: char, pid: int, key: string, value: string)
    | NoValue(action: char, pid: int, key: string)

  datatype Reply = Silent | Sent(text: string)

  const NOT_FOUND := "Key not found"

  const KEY_SIZE := 64
  const VALUE_SIZE := 256

  /** The parts fit the fixed-size fields, terminator included. */
  predicate Fits(r: Request) {
    match r
    case Malformed => true
    case WithValue(_, _, key, value) => |key| < KEY_SIZE && |value| < VALUE_SIZE
    case NoValue(_, _, key) => |key| < KEY_SIZE
  }

  function Upsert(m: Contents, key: string, value: string, pid: int): Contents {
    if key !in m then m[key := Entry(pid, value)]
    else if m[key].creator == pid then m[key := Entry(pid, value)]
    else m
  }

  function Remove(m: Contents, key: string, pid: int): Contents {
    if key in m && m[key].creator == pid then m - {key} else m
  }

  /** The dispatch on action and number of parts. */
  function Next(m: Contents, r: Request): Contents {
    match r
    case Malformed => m
    case WithValue(a, pid, key, value) => if a == 'c' || a == 'u' then Upsert(m, key, value, pid) else m
    case NoValue(a, pid, key) => if a == 'd' then Remove(m, key, pid) else m
  }

  function ReplyTo(m: Contents, r: Request): Reply {
    if r.NoValue? && r.action == 'r' then
      Sent(if r.key in m then m[r.key].value else NOT_FOUND)
    else Silent
  }

  /** The contents after a sequence of requests. */
  function After(m: Contents, rs: seq<Request>): Contents {
    if rs == [] then m else Next(After(m, rs[..|rs| - 1]), rs[|rs| - 1])
  }

  /** The replies to a sequence of requests. */
  function Replies(m: Contents, rs: seq<Request>): seq<Reply> {
    if rs == [] then []
    else Replies(m, rs[..|rs| - 1]) + [ReplyTo(After(m, rs[..|rs| - 1]), rs[|rs| - 1])]
  }

  // ----- who may change an entry

  predicate CarriesKey(r: Request, key: string) {
    !r.Malformed? && r.key == key
  }

  /** A request is an accepted overwrite or removal of the entry under `key`. */
  predicate OwnerActs(m: Contents, r: Request, key: string)
    requires key in m
  {
    && CarriesKey(r, key) && r.pid == m[key].creator
    && (if r.WithValue? then (r.action == 'c' || r.action == 'u') && r.value != m[key].value else r.action == 'd')
  }

  /** One request changes or removes an entry if and only if its creator asked for it. */
  lemma ChangesIffOwnerActs(m: Contents, r: Request, key: string)
    requires key in m
    ensures (key !in Next(m, r) || Next(m, r)[key] != m[key]) <==> OwnerActs(m, r, key)
    ensures key in Next(m, r) ==> Next(m, r)[key].creator == m[key].creator
  {
  }

  /** Over any run, an entry is untouched if no request for it carried its creator's id. */
  lemma {:induction false} OnlyTheCreatorChanges(m: Contents, rs: seq<Request>, key: string)
    requires key in m
    requires forall i :: 0 <= i < |rs| && CarriesKey(rs[i], key) ==> rs[i].pid != m[key].creator
    ensures key in After(m, rs) && After(m, rs)[key] == m[key]
  {
    if rs != [] {
      var n := |rs| - 1;
      OnlyTheCreatorChanges(m, rs[..n], key);
      ChangesIffOwnerActs(After(m, rs[..n]), rs[n], key);
    }
  }

  /** As long as an entry is not deleted its creator stays the same. */
  lemma {:induction false} CreatorFixed(m: Contents, rs: seq<Request>, key: string)
    requires forall i :: 0 <= i <= |rs| ==> key in After(m, rs[..i])
    ensures key in m && key in After(m, rs) && After(m, rs)[key].creator == m[key].creator
  {
    assert rs[..|rs|] == rs && rs[..0] == [];
    assert key in After(m, rs[..0]);
    if rs != [] {
      var n := |rs| - 1;
      forall i | 0 <= i <= n ensures key in After(m, rs[..n][..i]) {
        assert rs[..n][..i] == rs[..i];
      }
      CreatorFixed(m, rs[..n], key);
      ChangesIffOwnerActs(After(m, rs[..n]), rs[n], key);
    }
  }

  /** What a client stored, by create or update, is what anyone reads until the client acts on it again. */
  lemma ReadsBack(m: Contents, a: char, pid: int, key: string, value: string, rs: seq<Request>, reader: int)
    requires a == 'c' || a == 'u'
    requires key in m ==> m[key].creator == pid
    requires forall i :: 0 <= i < |rs| && CarriesKey(rs[i], key) ==> rs[i].pid != pid
    ensures ReplyTo(After(Next(m, WithValue(a, pid, key, value)), rs), NoValue('r', reader, key)) == Sent(value)
  {
    OnlyTheCreatorChanges(Next(m, WithValue(a, pid, key, value)), rs, key);
  }

  // ----- absent keys

  /** A request that stores something under `key`. */
  predicate Stores(r: Request, key: string) {
    r.WithValue? && (r.action == 'c' || r.action == 'u') && r.key == key
  }

  /** A missing key appears exactly on such a request, with its sender as creator and its value. */
  lemma AppearsIffStored(m: Contents, r: Request, key: string)
    requires key !in m
    ensures key in Next(m, r) <==> Stores(r, key)
    ensures key in Next(m, r) ==> Next(m, r)[key] == Entry(r.pid, r.value)
  {
  }

  /** Until someone stores it, a missing key stays missing, and every reader is told so. */
  lemma {:induction false} StaysAbsent(m: Contents, rs: seq<Request>, key: string, reader: int)
    requires key !in m
    requires forall i :: 0 <= i < |rs| ==> !Stores(rs[i], key)
    ensures key !in After(m, rs)
    ensures ReplyTo(After(m, rs), NoValue('r', reader, key)) == Sent("Key not found")
  {
    if rs != [] {
      var n := |rs| - 1;
      StaysAbsent(m, rs[..n], key, reader);
      AppearsIffStored(After(m, rs[..n]), rs[n], key);
    }
  }

  /** A key that its creator deleted is missing, and free for anyone to store. */
  lemma DeletedIsAbsent(m: Contents, key: string, rs: seq<Request>, reader: int)
    requires key in m
    requires forall i :: 0 <= i < |rs| ==> !Stores(rs[i], key)
    ensures var m' := After(Next(m, NoValue('d', m[key].creator, key)), rs);
      key !in m' && ReplyTo(m', NoValue('r', reader, key)) == Sent("Key not found")
  {
    StaysAbsent(Next(m, NoValue('d', m[key].creator, key)), rs, key, reader);
  }

  // ----- sequences of requests

  /** The server answers exactly the reads. */
  lemma AnswersReadsOnly(m: Contents, r: Request)
    ensures ReplyTo(m, r) != Silent <==> r.NoValue? && r.action == 'r'
  {
  }

  /** Requests take effect one after the other. */
  lemma {:induction false} AfterSplits(m: Contents, a: seq<Request>, b: seq<Request>)
    ensures After(m, []) == m && After(m, a + b) == After(After(m, a), b)
    ensures forall r :: After(m, [r]) == Next(m, r)
    decreases |b|
  {
    forall r ensures After(m, [r]) == Next(m, r) { assert [r][..0] == []; }
    if b == [] {
      assert a + b == a;
    } else {
      var n := |b| - 1;
      assert (a + b)[..|a + b| - 1] == a + b[..n];
      AfterSplits(m, a, b[..n]);
    }
  }

  /** Every request has its own reply, to the contents it met. */
  lemma {:induction false} RepliesAt(m: Contents, rs: seq<Request>, i: nat)
    requires i < |rs|
    ensures |Replies(m, rs)| == |rs| && Replies(m, rs)[i] == ReplyTo(After(m, rs[..i]), rs[i])
  {
    hide After, ReplyTo;
    var n := |rs| - 1;
    if i < n {
      RepliesAt(m, rs[..n], i);
      assert rs[..n][..i] == rs[..i];
    } else if n > 0 {
      RepliesAt(m, rs[..n], 0);
    }
  }
}

/** The server's store: a hash table of entries, searched and updated in place. */
module KvStore {
  import opened Elements
  import opened HashSpec
  import opened UtHash
  import opened KvSpec

  ghost function KeysOf(s: seq<Elem>): set<string> {
    set i | 0 <= i < |s| :: s[i].key
  }

  /** The elements of `s`, one per key, are the entries of `m`. */
  ghost predicate Ties(s: seq<Elem>, m: Contents)
    reads s`creator, s`value
  {
    && UniqueKeys(s)
    && m.Keys == KeysOf(s)
    && forall i {:trigger s[i]} :: 0 <= i < |s| ==>
         s[i].key in m && m[s[i].key] == Entry(s[i].creator, s[i].value)
  }

  lemma TiesAppend(s: seq<Elem>, m: Contents, e: Elem)
    requires Ties(s, m) && e.key !in m
    ensures Ties(s + [e], m[e.key := Entry(e.creator, e.value)])
  {
    KeysAppend(s, e);
  }

  lemma TiesEmpty()
    ensures Ties([], map[])
  {
  }

  lemma TiesWithout(s: seq<Elem>, m: Contents, e: Elem)
    requires Ties(s, m) && e in s
    ensures Ties(Without(s, e), m - {e.key})
  {
    hide Without;
    KeysWithout(s, e);
  }

  class Store {
    const table: HashTable           // the global hash_table
    ghost var contents: Contents

    ghost predicate Valid()
      reads this, table, table.buckets, table.app
    {
      table.Valid() && Ties(table.app, contents)
    }

    /** What a method may have changed stays within reach of the store. */
    twostate predicate Owned()
      reads table, table.buckets, table.app
    {
      && (table.buckets == old(table.buckets) || fresh(table.buckets))
      && (forall i :: 0 <= i < |table.app| ==> table.app[i] in old(table.app) || fresh(table.app[i]))
    }

    constructor (hashFn: HashFn)
      ensures Valid() && contents == map[] && fresh(table) && fresh(table.buckets) && table.app == []
    {
      table := new HashTable(hashFn);
      contents := map[];
    }

    /** The branch of upsert_value that creates an entry. */
    method CreateEntry(key: string, value: string, pid: int)
      requires Valid() && key !in contents && |key| < KEY_SIZE && |value| < VALUE_SIZE
      modifies this, table, table.buckets, table.app
      ensures Valid() && Owned() && contents == old(contents)[key := Entry(pid, value)]
    {
      hide table.Valid, Ties, HashSpec.Add;
      ghost var s := table.app;
      var kv := new Elem(key, value, pid);
      TiesAppend(s, contents, kv);
      table.Add(kv);
      contents := contents[key := Entry(pid, value)];
    }

    /** The branch that overwrites one. */
    method OverwriteEntry(kv: Elem, value: string)
      requires Valid() && kv in table.app && |value| < VALUE_SIZE
      modifies this, kv`value
      ensures Valid() && contents == old(contents)[kv.key := Entry(kv.creator, value)]
    {
      hide table.Valid;
      kv.value := value;
      contents := contents[kv.key := Entry(kv.creator, value)];
    }

    /** upsert_value */
    method UpsertValue(key: string, value: string, pid: int)
      requires Valid() && |key| < KEY_SIZE && |value| < VALUE_SIZE
      modifies this, table, table.buckets, table.app
      ensures Valid() && Owned() && contents == Upsert(old(contents), key, value, pid)
    {
      hide table.Valid, LinearFind;
      var kv := table.Find(key);
      if kv == null {
        CreateEntry(key, value, pid);
      } else if kv.creator == pid {
        OverwriteEntry(kv, value);
      }
    }

    /** get_value; `found` is false where it returns NULL. */
    method GetValue(key: string) returns (found: bool, value: string)
      requires Valid()
      ensures found <==> key in contents
      ensures found ==> value == contents[key].value
    {
      hide table.Valid, LinearFind;
      found, value := false, "";
      var kv := table.Find(key);
      if kv != null {
        found, value := true, kv.value;
      }
    }

    method DeleteEntry(kv: Elem)
      requires Valid() && kv in table.app
      modifies this, table, table.buckets, table.app
      ensures Valid() && Owned() && contents == old(contents) - {kv.key}
    {
      hide table.Valid, Ties, Without, HashSpec.Del, InBucket;
      ghost var s := table.app;
      WithoutMembers(s, kv);
      table.Delete(kv);
      TiesWithout(s, contents, kv);
      contents := contents - {kv.key};
    }

    /** delete_key_value */
    method DeleteKeyValue(key: string, pid: int)
      requires Valid()
      modifies this, table, table.buckets, table.app
      ensures Valid() && Owned() && contents == Remove(old(contents), key, pid)
    {
      hide table.Valid, LinearFind;
      var kv := table.Find(key);
      if kv != null {
        if kv.creator == pid {
          DeleteEntry(kv);
        }
      }
    }

    /** cleanup_hash_table */
    method Cleanup() returns (visited: seq<Elem>)
      requires Valid()
      modifies this, table, table.buckets, table.app
      ensures Valid() && contents == map[]
      ensures visited == old(table.app) && Distinct(visited)
      ensures UniqueKeys(visited) && KeysOf(visited) == old(contents).Keys
    {
      hide table.TableOk;
      visited := table.DeleteAll();
      contents := map[];
      TiesEmpty();
    }

    /** The dispatch of one request in main. */
    method Handle(r: Request) returns (reply: Reply)
      requires Valid() && Fits(r)
      modifies this, table, table.buckets, table.app
      ensures Valid() && Owned() && contents == Next(old(contents), r)
      ensures reply == ReplyTo(old(contents), r)
    {
      hide Valid, Upsert, Remove;
      reply := Silent;
      match r
      case Malformed =>
      case WithValue(action, pid, key, value) =>
        if action == 'c' || action == 'u' {
          UpsertValue(key, value, pid);
        }
      case NoValue(action, pid, key) =>
        if action == 'r' {
          var found, value := GetValue(key);
          reply := Sent(if found then value else NOT_FOUND);
        } else if action == 'd' {
          DeleteKeyValue(key, pid);
        }
    }

    /** The request loop, for any finite number of requests. */
    method Serve(rs: seq<Request>) returns (replies: seq<Reply>)
      requires Valid() && forall i :: 0 <= i < |rs| ==> Fits(rs[i])
      modifies this, table, table.buckets, table.app
      ensures Valid() && contents == After(old(contents), rs)
      ensures replies == Replies(old(contents), rs)
    {
      hide Valid, Next, ReplyTo;
      replies := [];
      for i := 0 to |rs|
        invariant Valid() && Owned()
        invariant contents == After(old(contents), rs[..i])
        invariant replies == Replies(old(contents), rs[..i])
      {
        assert rs[..i + 1][..i] == rs[..i];
        var reply := Handle(rs[i]);
        replies := replies + [reply];
      }
      assert rs[..|rs|] == rs;
    }
  }

  lemma KeysAppend(s: seq<Elem>, e: Elem)
    ensures KeysOf(s + [e]) == KeysOf(s) + {e.key}
  {
    var t := s + [e];
    forall k | k in KeysOf(s) + {e.key} ensures k in KeysOf(t) {
      if k == e.key {
        assert t[|s|].key == k;
      } else {
        var i :| 0 <= i < |s| && s[i].key == k;
        assert t[i].key == k;
      }
    }
  }

  lemma KeysWithout(s: seq<Elem>, e: Elem)
    requires UniqueKeys(s) && e in s
    ensures UniqueKeys(Without(s, e)) && KeysOf(Without(s, e)) == KeysOf(s) - {e.key}
    ensures forall i :: 0 <= i < |Without(s, e)| ==> Without(s, e)[i] in s && Without(s, e)[i].key != e.key
  {
    hide Without;
    var k :| 0 <= k < |s| && s[k] == e;
    WithoutAt(s, k);
    var t := Without(s, e);
    forall i | 0 <= i < |t| ensures t[i] in s && t[i].key != e.key && t[i].key in KeysOf(s) {
      assert t[i] == s[if i < k then i else i + 1];
    }
    forall i | 0 <= i < |s| && i != k ensures s[i].key in KeysOf(t) {
      assert t[if i < k then i else i - 1].key == s[i].key;
    }
  }
}
