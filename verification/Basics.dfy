/** Vocabulary shared by every part of the model. */
module Basics {
  datatype Option<+T> = None | Some(value: T)

  /** A content identifier. CIDs are opaque: equal content has an equal CID. */
  datatype Cid = Cid(id: nat)

  function Get<K, V>(m: map<K, V>, k: K): Option<V> {
    if k in m then Some(m[k]) else None
  }

  function ToSet<T>(s: seq<T>): set<T> {
    set x | x in s
  }
}

/** Byte streams. */
module Bytes {
  const TWO_64 := 0x1_0000_0000_0000_0000

  type Byte = x: int | 0 <= x < 256

  /** What a parser took off the front of its input, and what it left. */
  datatype Read<+T> = Read(value: T, rest: seq<Byte>)

  lemma Assoc(a: seq<Byte>, b: seq<Byte>, c: seq<Byte>)
    ensures (a + b) + c == a + (b + c)
  {
  }

  class Writer {
    var out: seq<Byte>

    constructor ()
      ensures out == []
    {
      out := [];
    }

    method Write(bytes: seq<Byte>)
      modifies this
      ensures out == old(out) + bytes
    {
      out := out + bytes;
    }
  }
}

/** Record paths: a (collection, rkey) pair joined by "/", and cut again at the first "/". */
module RecordPath {
  datatype Key = Key(collection: string, rkey: string)

  /** A collection name is an NSID, so it never holds the separator. */
  predicate Joinable(k: Key) {
    '/' !in k.collection
  }

  function Path(k: Key): string {
    k.collection + "/" + k.rkey
  }

  /** strings.Cut(p, "/"): everything before and after the first separator. */
  function Cut(p: string): Key {
    if p == [] then Key("", "")
    else if p[0] == '/' then Key("", p[1..])
    else var rest := Cut(p[1..]); Key([p[0]] + rest.collection, rest.rkey)
  }

  lemma {:induction false} CutUndoesPath(k: Key)
    requires Joinable(k)
    ensures Cut(Path(k)) == k
    decreases |k.collection|
  {
    if k.collection == "" {
      assert Path(k)[1..] == k.rkey;
    } else {
      var shorter := Key(k.collection[1..], k.rkey);
      CutUndoesPath(shorter);
      assert Path(k)[1..] == Path(shorter);
      assert k.collection == [k.collection[0]] + k.collection[1..];
    }
  }

  lemma {:induction false} PathUndoesCut(p: string)
    requires '/' in p
    ensures Path(Cut(p)) == p && Joinable(Cut(p))
  {
    if p[0] == '/' {
      assert p == "/" + p[1..];
    } else {
      assert p == [p[0]] + p[1..];
      PathUndoesCut(p[1..]);
      var rest := Cut(p[1..]);
      assert Path(Key([p[0]] + rest.collection, rest.rkey)) == [p[0]] + Path(rest);
    }
  }

  lemma PathInjective(a: Key, b: Key)
    requires Joinable(a) && Joinable(b) && Path(a) == Path(b)
    ensures a == b
  {
    CutUndoesPath(a);
    CutUndoesPath(b);
  }
}
