/** Directories: the format of an entry, and a sequence of entries as a finite map from names to inodes. */
module SfsDirent {
  import opened SfsLayout
  import opened SfsIo
  import opened UioModel

  /** sizeof(struct sfs_dir). */
  const DIRENT: nat := 64
  const NAMELEN: nat := 60
  const NOINO: nat := 0

  type Name = seq<byte>

  /** A C string, without its terminator. */
  predicate IsName(name: Name) {
    0 !in name
  }

  /** The C string stored at the front of `s`. */
  function UpToNul(s: seq<byte>): (name: Name)
    ensures IsName(name) && |name| <= |s|
  {
    if s == [] || s[0] == 0 then [] else [s[0]] + UpToNul(s[1..])
  }

  datatype Entry = Entry(ino: nat, name: Name) {
    predicate Live() { ino != NOINO }
  }

  /** An entry as sfs_dir_findname reads it: the last byte of the name counts as a terminator. */
  function DecodeEntry(b: seq<byte>): (e: Entry)
    requires |b| == DIRENT
    ensures e.ino < WORD_LIMIT && IsName(e.name)
  {
    WordBound(b[0], b[1], b[2], b[3]);
    Entry(Word(b[0], b[1], b[2], b[3]), UpToNul(b[4..DIRENT - 1]))
  }

  lemma WordBound(b0: byte, b1: byte, b2: byte, b3: byte)
    ensures Word(b0, b1, b2, b3) < WORD_LIMIT
  {
  }

  function EncodeEntry(ino: nat, name: Name): (b: seq<byte>)
    requires ino < WORD_LIMIT && |name| + 1 <= NAMELEN
    ensures |b| == DIRENT
  {
    [ByteOf(ino, 0), ByteOf(ino, 1), ByteOf(ino, 2), ByteOf(ino, 3)] + name + ZeroBytes(NAMELEN - |name|)
  }

  lemma {:induction false} UpToNulOfPadded(name: Name, rest: seq<byte>)
    requires IsName(name) && rest != [] && rest[0] == 0
    ensures UpToNul(name + rest) == name
  {
    if name == [] {
      assert name + rest == rest;
    } else {
      UpToNulOfPadded(name[1..], rest);
      assert (name + rest)[1..] == name[1..] + rest;
    }
  }

  /** A name that fits with its terminator is read back as it was written. */
  lemma EntryRoundTrip(ino: nat, name: Name)
    requires ino < WORD_LIMIT && |name| + 1 <= NAMELEN && IsName(name)
    ensures DecodeEntry(EncodeEntry(ino, name)) == Entry(ino, name)
  {
    var b := EncodeEntry(ino, name);
    WordOfBytes(ino);
    assert b[4..DIRENT - 1] == name + ZeroBytes(NAMELEN - 1 - |name|);
    if |name| == NAMELEN - 1 {
      FullName(name);
      assert b[4..DIRENT - 1] == name;
    } else {
      UpToNulOfPadded(name, ZeroBytes(NAMELEN - 1 - |name|));
    }
  }

  lemma {:induction false} FullName(name: Name)
    requires IsName(name)
    ensures UpToNul(name) == name
  {
    if name != [] {
      FullName(name[1..]);
    }
  }

  // ----- the entries of a directory

  function EntryAt(dir: seq<byte>, k: nat): Entry
    requires (k + 1) * DIRENT <= |dir|
  {
    DecodeEntry(dir[k * DIRENT..(k + 1) * DIRENT])
  }

  function Entries(dir: seq<byte>): (es: seq<Entry>)
    requires |dir| % DIRENT == 0
    ensures |es| == |dir| / DIRENT
  {
    seq(|dir| / DIRENT, k requires 0 <= k < |dir| / DIRENT => EntryAt(dir, k))
  }

  /** The entries after slot `k` was written, or appended if `k` is their number. */
  function PutEntry(es: seq<Entry>, k: nat, e: Entry): (fs: seq<Entry>)
    requires k <= |es|
  {
    if k < |es| then es[k := e] else es + [e]
  }

  lemma WriteEntry(dir: seq<byte>, k: nat, b: seq<byte>)
    requires |dir| % DIRENT == 0 && k <= |dir| / DIRENT && |b| == DIRENT
    ensures |WriteAt(dir, k * DIRENT, b)| % DIRENT == 0
    ensures Entries(WriteAt(dir, k * DIRENT, b)) == PutEntry(Entries(dir), k, DecodeEntry(b))
  {
    var dir' := WriteAt(dir, k * DIRENT, b);
    var es := PutEntry(Entries(dir), k, DecodeEntry(b));
    assert |dir'| == |es| * DIRENT;
    forall j: nat | j < |es|
      ensures Entries(dir')[j] == es[j]
    {
      if j == k {
        assert dir'[j * DIRENT..(j + 1) * DIRENT] == b;
      } else {
        assert dir'[j * DIRENT..(j + 1) * DIRENT] == dir[j * DIRENT..(j + 1) * DIRENT];
      }
    }
  }

  // ----- names

  /** Entry `k` is in use under `name`. */
  predicate Binds(es: seq<Entry>, k: nat, name: Name) {
    k < |es| && es[k].Live() && es[k].name == name
  }

  /** No name appears twice. */
  predicate Unique(es: seq<Entry>) {
    forall j: nat, k: nat | j < k < |es| && es[j].Live() && es[k].Live() :: es[j].name != es[k].name
  }

  /** The directory as a finite map. */
  function Bindings(es: seq<Entry>): (m: map<Name, nat>)
    decreases |es|
  {
    if es == [] then map[]
    else
      var e := es[|es| - 1];
      if e.Live() then Bindings(es[..|es| - 1])[e.name := e.ino] else Bindings(es[..|es| - 1])
  }

  function One(e: Entry, ino: nat): nat {
    if e.Live() && e.ino == ino then 1 else 0
  }

  /** How many names the inode has. */
  function Links(es: seq<Entry>, ino: nat): (n: nat)
    ensures n <= |es|
    decreases |es|
  {
    if es == [] then 0
    else Links(es[..|es| - 1], ino) + One(es[|es| - 1], ino)
  }

  lemma {:induction false} BindingAt(es: seq<Entry>, k: nat)
    requires Unique(es) && k < |es| && es[k].Live()
    ensures es[k].name in Bindings(es) && Bindings(es)[es[k].name] == es[k].ino
    decreases |es|
  {
    var front := es[..|es| - 1];
    if k < |es| - 1 {
      assert front[k] == es[k];
      BindingAt(front, k);
    }
  }

  lemma {:induction false} BindingFrom(es: seq<Entry>, name: Name) returns (k: nat)
    requires name in Bindings(es)
    ensures Binds(es, k, name) && Bindings(es)[name] == es[k].ino
    decreases |es|
  {
    var n := |es| - 1;
    if es[n].Live() && es[n].name == name {
      k := n;
    } else {
      k := BindingFrom(es[..n], name);
    }
  }

  lemma {:induction false} LinksPositive(es: seq<Entry>, k: nat)
    requires k < |es| && es[k].Live()
    ensures Links(es, es[k].ino) > 0
    decreases |es|
  {
    if k < |es| - 1 {
      LinksPositive(es[..|es| - 1], k);
    }
  }

  lemma {:induction false} LinksFrom(es: seq<Entry>, ino: nat) returns (k: nat)
    requires Links(es, ino) > 0
    ensures k < |es| && es[k].Live() && es[k].ino == ino
    decreases |es|
  {
    var n := |es| - 1;
    if es[n].Live() && es[n].ino == ino {
      k := n;
    } else {
      k := LinksFrom(es[..n], ino);
    }
  }

  /** Writing one slot moves the link counts by what left and what came. */
  lemma {:induction false} PutLinks(es: seq<Entry>, k: nat, e: Entry, ino: nat)
    requires k <= |es|
    ensures Links(PutEntry(es, k, e), ino) == Links(es, ino) + One(e, ino) - (if k < |es| then One(es[k], ino) else 0)
    decreases |es|
  {
    var fs := PutEntry(es, k, e);
    if k == |es| {
      assert fs[..|es|] == es;
    } else if k == |es| - 1 {
      assert fs[..|es| - 1] == es[..|es| - 1];
    } else {
      PutLinks(es[..|es| - 1], k, e, ino);
      assert fs[..|es| - 1] == PutEntry(es[..|es| - 1], k, e);
    }
  }

  /** Putting a new name into a free slot, or at the end, adds exactly that binding. */
  lemma PutBinds(es: seq<Entry>, k: nat, e: Entry)
    requires Unique(es) && k <= |es| && (k < |es| ==> !es[k].Live()) && e.Live() && e.name !in Bindings(es)
    ensures Unique(PutEntry(es, k, e)) && Bindings(PutEntry(es, k, e)) == Bindings(es)[e.name := e.ino]
  {
    var fs := PutEntry(es, k, e);
    forall j: nat | j < |es| && es[j].Live()
      ensures es[j].name != e.name
    {
      BindingAt(es, j);
    }
    SameBindings(fs, Bindings(es)[e.name := e.ino], es, k, e);
  }

  lemma SameBindings(fs: seq<Entry>, m: map<Name, nat>, es: seq<Entry>, k: nat, e: Entry)
    requires k <= |es| && fs == PutEntry(es, k, e) && Unique(es) && Unique(fs) && e.Live()
    requires k < |es| ==> !es[k].Live()
    requires m == Bindings(es)[e.name := e.ino]
    ensures Bindings(fs) == m
  {
    BindingAt(fs, k);
    forall name | name in m
      ensures name in Bindings(fs) && Bindings(fs)[name] == m[name]
    {
      if name != e.name {
        var j := BindingFrom(es, name);
        BindingAt(fs, j);
      }
    }
    forall name | name in Bindings(fs)
      ensures name in m
    {
      var j := BindingFrom(fs, name);
      if j != k {
        BindingAt(es, j);
      }
    }
  }

  /** Clearing a slot takes exactly its binding away. */
  lemma ClearBinds(es: seq<Entry>, k: nat, e: Entry)
    requires Unique(es) && k < |es| && es[k].Live() && !e.Live()
    ensures Unique(es[k := e]) && Bindings(es[k := e]) == Bindings(es) - {es[k].name}
  {
    var fs := es[k := e];
    forall name | name in Bindings(es) && name != es[k].name
      ensures name in Bindings(fs) && Bindings(fs)[name] == Bindings(es)[name]
    {
      var j := BindingFrom(es, name);
      BindingAt(fs, j);
    }
    forall name | name in Bindings(fs)
      ensures name in Bindings(es) && name != es[k].name
    {
      var j := BindingFrom(fs, name);
      BindingAt(es, j);
    }
  }

  /** The number of names of an inode is the number of names that the map gives it. */
  lemma {:induction false} LinksAreNames(es: seq<Entry>, ino: nat)
    requires Unique(es) && ino != NOINO
    ensures Links(es, ino) == |NamesOf(Bindings(es), ino)|
    decreases |es|
  {
    if es != [] {
      var front, e := es[..|es| - 1], es[|es| - 1];
      LinksAreNames(front, ino);
      if e.Live() {
        if e.name in Bindings(front) {
          var j := BindingFrom(front, e.name);
        }
        NamesAfter(Bindings(front), Bindings(es), e.name, e.ino, ino);
      }
    }
  }

  /** The names that a map gives an inode. */
  function NamesOf(m: map<Name, nat>, ino: nat): set<Name> {
    set name | name in m && m[name] == ino
  }

  lemma NamesAfter(m: map<Name, nat>, m': map<Name, nat>, name: Name, x: nat, ino: nat)
    requires name !in m && m' == m[name := x]
    ensures |NamesOf(m', ino)| == |NamesOf(m, ino)| + if x == ino then 1 else 0
  {
    assert NamesOf(m', ino) == if x == ino then NamesOf(m, ino) + {name} else NamesOf(m, ino);
  }
}
