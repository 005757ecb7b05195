/** The online portable-namespace checks of a binary ZIP's entry loop
    (src/binary_artifact.rs): no two entries may collide on a case-folding,
    backslash-normalising file system, and no file may be a parent of another
    entry. Case folding is a parameter, `lower`. */
module PortablePaths {
  import opened Prelude
  import opened Text

  /** An accepted entry beneath the archive root. */
  datatype Entry = Entry(relative: string, isFile: bool)

  datatype PathError = Collision | BelowFile | AboveEntry | DuplicateFile

  function PortableKey(lower: Fold, path: string): string {
    lower(ReplaceChar(path, '\\', "/"))
  }

  // ---- Ordered keys ----

  /** The order of the key map: lexicographic. */
  predicate Less(a: string, b: string) {
    b != "" && (a == "" || a[0] < b[0] || (a[0] == b[0] && Less(a[1..], b[1..])))
  }

  predicate AtMost(a: string, b: string) {
    a == b || Less(a, b)
  }

  lemma {:induction false} LessIsTotal(a: string, b: string)
    ensures Less(a, b) || a == b || Less(b, a)
    ensures !(Less(a, b) && Less(b, a)) && (a == b ==> !Less(a, b))
  {
    if a != "" && b != "" {
      LessIsTotal(a[1..], b[1..]);
      assert a == [a[0]] + a[1..] && b == [b[0]] + b[1..];
    }
  }

  lemma {:induction false} LessIsTransitive(a: string, b: string, c: string)
    requires Less(a, b) && Less(b, c)
    ensures Less(a, c)
  {
    if a != "" && a[0] == b[0] == c[0] {
      LessIsTransitive(a[1..], b[1..], c[1..]);
    }
  }

  /** The least key at or after `from`: `range(from..).next()`. */
  method FirstFrom(keys: set<string>, from: string) returns (first: Option<string>)
    ensures first.None? ==> forall k :: k in keys ==> !AtMost(from, k)
    ensures first.Some? ==> first.value in keys && AtMost(from, first.value)
    ensures first.Some? ==> forall k :: k in keys && AtMost(from, k) ==> AtMost(first.value, k)
  {
    first := None;
    var rest := keys;
    while rest != {}
      invariant rest <= keys
      invariant first.None? ==> forall k :: k in keys - rest ==> !AtMost(from, k)
      invariant first.Some? ==> first.value in keys && AtMost(from, first.value)
      invariant first.Some? ==> forall k :: k in keys - rest && AtMost(from, k) ==> AtMost(first.value, k)
      decreases |rest|
    {
      var k :| k in rest;
      if AtMost(from, k) && (first.None? || Less(k, first.value)) {
        ghost var previous := first;
        first := Some(k);
        forall j | j in keys - rest && AtMost(from, j)
          ensures AtMost(k, j)
        {
          if j != previous.value {
            LessIsTransitive(k, previous.value, j);
          }
        }
      } else if first.Some? {
        LessIsTotal(k, first.value);
      }
      rest := rest - {k};
    }
  }

  /** Everything ordered between a prefix and one of its extensions extends it. */
  lemma {:induction false} ExtensionsAreContiguous(prefix: string, m: string, k: string)
    requires prefix <= k && AtMost(prefix, m) && AtMost(m, k)
    ensures prefix <= m
  {
    if prefix != "" && m != k && m != prefix {
      ExtensionsAreContiguous(prefix[1..], m[1..], k[1..]);
      assert m == [m[0]] + m[1..] && prefix == [prefix[0]] + prefix[1..];
    }
  }

  lemma {:induction false} PrefixIsAtMost(prefix: string, k: string)
    requires prefix <= k
    ensures AtMost(prefix, k)
  {
    if prefix != "" && prefix != k {
      PrefixIsAtMost(prefix[1..], k[1..]);
      assert prefix == [prefix[0]] + prefix[1..] && k == [k[0]] + k[1..];
    }
  }

  // ---- The namespace ----

  predicate IsAncestor(ancestor: string, path: string) {
    ancestor + "/" <= path
  }

  predicate Compatible(lower: Fold, a: Entry, b: Entry) {
    var ka, kb := PortableKey(lower, a.relative), PortableKey(lower, b.relative);
    && ka != kb
    && (a.isFile ==> !IsAncestor(ka, kb))
    && (b.isFile ==> !IsAncestor(kb, ka))
  }

  /** Keys pairwise distinct, and no regular file a proper ancestor. */
  ghost predicate PortableNamespace(lower: Fold, entries: seq<Entry>) {
    forall i, j :: 0 <= i < j < |entries| ==> Compatible(lower, entries[i], entries[j])
  }

  function Files(entries: seq<Entry>): set<string> {
    set i | 0 <= i < |entries| && entries[i].isFile :: entries[i].relative
  }

  function FileCount(entries: seq<Entry>): nat {
    if entries == [] then 0
    else FileCount(entries[..|entries| - 1]) + if entries[|entries| - 1].isFile then 1 else 0
  }

  lemma AncestorEndsAtSlash(f: string, key: string)
    requires IsAncestor(f, key)
    ensures |f| < |key| && key[|f|] == '/' && key[..|f|] == f
  {
    assert key[|f|] == (f + "/")[|f|] == '/';
    assert key[..|f|] == (f + "/")[..|f|] == f;
  }

  /** Is some proper "/"-prefix of the key among the files? */
  method HasAncestorIn(key: string, files: set<string>) returns (found: bool)
    ensures found <==> exists f :: f in files && IsAncestor(f, key)
  {
    var i := 0;
    while i < |key|
      invariant 0 <= i <= |key|
      invariant forall j :: 0 <= j < i && key[j] == '/' ==> key[..j] !in files
    {
      if key[i] == '/' && key[..i] in files {
        assert key[..i] + "/" == key[..i + 1];
        assert IsAncestor(key[..i], key);
        return true;
      }
      i := i + 1;
    }
    forall f | f in files
      ensures !IsAncestor(f, key)
    {
      if IsAncestor(f, key) {
        AncestorEndsAtSlash(f, key);
      }
    }
    return false;
  }

  /** Is some key below `key`? One successor query of the ordered keys. */
  method HasDescendantIn(key: string, keys: set<string>) returns (found: bool)
    ensures found <==> exists k :: k in keys && IsAncestor(key, k)
  {
    var prefix := key + "/";
    var next := FirstFrom(keys, prefix);
    found := next.Some? && prefix <= next.value;
    if found {
      assert IsAncestor(key, next.value);
    }
    forall k | k in keys && IsAncestor(key, k)
      ensures found
    {
      PrefixIsAtMost(prefix, k);
      ExtensionsAreContiguous(prefix, next.value, k);
    }
  }

  function KeysOf(lower: Fold, entries: seq<Entry>): set<string> {
    set i | 0 <= i < |entries| :: PortableKey(lower, entries[i].relative)
  }

  function FileKeysOf(lower: Fold, entries: seq<Entry>): set<string> {
    set i | 0 <= i < |entries| && entries[i].isFile :: PortableKey(lower, entries[i].relative)
  }

  /** What the three lookups decide about the next entry. */
  lemma NextEntryFits(lower: Fold, before: seq<Entry>, entry: Entry)
    ensures
      var key := PortableKey(lower, entry.relative);
      PortableNamespace(lower, before + [entry])
      <==> && PortableNamespace(lower, before)
           && key !in KeysOf(lower, before)
           && (forall f :: f in FileKeysOf(lower, before) ==> !IsAncestor(f, key))
           && (entry.isFile ==> forall k :: k in KeysOf(lower, before) ==> !IsAncestor(key, k))
  {
    var all := before + [entry];
    var key := PortableKey(lower, entry.relative);
    if PortableNamespace(lower, all) {
      forall i | 0 <= i < |before|
        ensures Compatible(lower, before[i], entry)
      {
        assert Compatible(lower, all[i], all[|before|]);
      }
      forall i, j | 0 <= i < j < |before|
        ensures Compatible(lower, before[i], before[j])
      {
        assert Compatible(lower, all[i], all[j]);
      }
    }
    if && PortableNamespace(lower, before)
       && key !in KeysOf(lower, before)
       && (forall f :: f in FileKeysOf(lower, before) ==> !IsAncestor(f, key))
       && (entry.isFile ==> forall k :: k in KeysOf(lower, before) ==> !IsAncestor(key, k))
    {
      forall i, j | 0 <= i < j < |all|
        ensures Compatible(lower, all[i], all[j])
      {
        if j == |before| {
          assert PortableKey(lower, before[i].relative) in KeysOf(lower, before);
          assert before[i].isFile ==> PortableKey(lower, before[i].relative) in FileKeysOf(lower, before);
        } else {
          assert Compatible(lower, before[i], before[j]);
        }
      }
    }
  }

  lemma BadPrefixIsBad(lower: Fold, entries: seq<Entry>, n: nat)
    requires n <= |entries| && !PortableNamespace(lower, entries[..n])
    ensures !PortableNamespace(lower, entries)
  {
    var i, j :| 0 <= i < j < n && !Compatible(lower, entries[..n][i], entries[..n][j]);
    assert !Compatible(lower, entries[i], entries[j]);
  }

  lemma NoFileTwice(lower: Fold, before: seq<Entry>, entry: Entry)
    requires PortableKey(lower, entry.relative) !in KeysOf(lower, before)
    ensures entry.relative !in Files(before)
  {
  }

  /** The path checks of the entry loop pass exactly for a portable namespace;
      the duplicate-file refusal is never the one that fires, and on success
      every file entry is accounted for once. */
  method CheckPaths(lower: Fold, entries: seq<Entry>)
    returns (error: Option<PathError>, regularFiles: set<string>)
    ensures error.None? <==> PortableNamespace(lower, entries)
    ensures error != Some(DuplicateFile)
    ensures error.None? ==> regularFiles == Files(entries) && |regularFiles| == FileCount(entries)
  {
    hide PortableNamespace, KeysOf, FileKeysOf, Files, FileCount, PortableKey, IsAncestor;
    var portablePaths: map<string, string> := map[];
    var portableFiles: set<string> := {};
    regularFiles := {};
    error := None;
    var i := 0;
    NoEntries(lower, entries);
    ghost var seen := entries[..0];
    while i < |entries|
      invariant 0 <= i <= |entries| && seen == entries[..i]
      invariant error.None?
      invariant PortableNamespace(lower, seen)
      invariant portablePaths.Keys == KeysOf(lower, seen)
      invariant portableFiles == FileKeysOf(lower, seen)
      invariant regularFiles == Files(seen) && |regularFiles| == FileCount(seen)
    {
      var entry := entries[i];
      var portable := PortableKey(lower, entry.relative);
      Advance(lower, entries, i);
      seen := entries[..i + 1];
      i := i + 1;
      if portable in portablePaths {
        return Some(Collision), {};
      }
      var below := HasAncestorIn(portable, portableFiles);
      if below {
        return Some(BelowFile), {};
      }
      if entry.isFile {
        var above := HasDescendantIn(portable, portablePaths.Keys);
        if above {
          return Some(AboveEntry), {};
        }
      }
      assert PortableNamespace(lower, seen);
      portablePaths := portablePaths[portable := entry.relative];
      if entry.isFile {
        portableFiles := portableFiles + {portable};
        if entry.relative in regularFiles {
          return Some(DuplicateFile), {};
        }
        regularFiles := regularFiles + {entry.relative};
      }
    }
    assert entries[..i] == entries;
  }

  /** One turn of the loop, in terms of the entries seen so far. */
  lemma Advance(lower: Fold, entries: seq<Entry>, i: nat)
    requires i < |entries| && PortableNamespace(lower, entries[..i])
    ensures
      var before, after, entry := entries[..i], entries[..i + 1], entries[i];
      var key := PortableKey(lower, entry.relative);
      && (PortableNamespace(lower, after)
          <==> && key !in KeysOf(lower, before)
               && (forall f :: f in FileKeysOf(lower, before) ==> !IsAncestor(f, key))
               && (entry.isFile ==> forall k :: k in KeysOf(lower, before) ==> !IsAncestor(key, k)))
      && (PortableNamespace(lower, entries) ==> PortableNamespace(lower, after))
      && (key !in KeysOf(lower, before) ==> entry.relative !in Files(before))
      && KeysOf(lower, after) == KeysOf(lower, before) + {key}
      && FileKeysOf(lower, after) == FileKeysOf(lower, before) + (if entry.isFile then {key} else {})
      && Files(after) == Files(before) + (if entry.isFile then {entry.relative} else {})
      && FileCount(after) == FileCount(before) + if entry.isFile then 1 else 0
  {
    hide PortableNamespace, KeysOf, FileKeysOf, Files, FileCount, PortableKey;
    var entry := entries[i];
    assert entries[..i + 1] == entries[..i] + [entry];
    NextEntryFits(lower, entries[..i], entry);
    AddEntry(lower, entries[..i], entry);
    if !PortableNamespace(lower, entries[..i + 1]) {
      BadPrefixIsBad(lower, entries, i + 1);
    }
    if PortableKey(lower, entry.relative) !in KeysOf(lower, entries[..i]) {
      NoFileTwice(lower, entries[..i], entry);
    }
  }

  lemma NoEntries(lower: Fold, entries: seq<Entry>)
    ensures PortableNamespace(lower, entries[..0]) && KeysOf(lower, entries[..0]) == {}
    ensures FileKeysOf(lower, entries[..0]) == {} && Files(entries[..0]) == {} && FileCount(entries[..0]) == 0
  {
  }

  lemma AddEntry(lower: Fold, before: seq<Entry>, entry: Entry)
    ensures
      var after, key := before + [entry], PortableKey(lower, entry.relative);
      && KeysOf(lower, after) == KeysOf(lower, before) + {key}
      && FileKeysOf(lower, after) == FileKeysOf(lower, before) + (if entry.isFile then {key} else {})
      && Files(after) == Files(before) + (if entry.isFile then {entry.relative} else {})
      && FileCount(after) == FileCount(before) + if entry.isFile then 1 else 0
  {
    var after := before + [entry];
    assert after[..|before|] == before && after[|before|] == entry;
    assert forall i :: 0 <= i < |before| ==> after[i] == before[i];
  }

  // ---- Order does not matter ----

  lemma {:induction false} RepeatedEntry(s: seq<Entry>, e: Entry)
    ensures multiset(s)[e] >= 2 <==> exists i, j :: 0 <= i < j < |s| && s[i] == e && s[j] == e
  {
    if s != [] {
      var front, last := s[..|s| - 1], s[|s| - 1];
      assert s == front + [last];
      RepeatedEntry(front, e);
      if multiset(s)[e] >= 2 && multiset(front)[e] < 2 {
        assert last == e && e in front;
        var i :| 0 <= i < |front| && front[i] == e;
        assert s[i] == e && s[|s| - 1] == e;
      }
      if i, j :| 0 <= i < j < |s| && s[i] == e && s[j] == e {
        assert front[i] == e;
        assert e in multiset(front);
        if j < |front| {
          assert front[j] == e;
        }
      }
    }
  }

  /** The namespace condition in terms of which entries occur how often. */
  lemma NamespaceByOccurrence(lower: Fold, s: seq<Entry>)
    ensures PortableNamespace(lower, s)
       <==> (forall e :: e in multiset(s) ==> multiset(s)[e] < 2)
            && (forall e, f :: e in multiset(s) && f in multiset(s) && e != f ==> Compatible(lower, e, f))
  {
    if PortableNamespace(lower, s) {
      forall e | e in multiset(s)
        ensures multiset(s)[e] < 2
      {
        RepeatedEntry(s, e);
      }
      forall e, f | e in multiset(s) && f in multiset(s) && e != f
        ensures Compatible(lower, e, f)
      {
        var i :| 0 <= i < |s| && s[i] == e;
        var j :| 0 <= j < |s| && s[j] == f;
        assert if i < j then Compatible(lower, s[i], s[j]) else Compatible(lower, s[j], s[i]);
      }
    } else {
      var i, j :| 0 <= i < j < |s| && !Compatible(lower, s[i], s[j]);
      RepeatedEntry(s, s[i]);
      assert s[i] in multiset(s) && s[j] in multiset(s);
    }
  }

  /** Accepting an archive does not depend on the order of its entries. */
  lemma OrderDoesNotMatter(lower: Fold, a: seq<Entry>, b: seq<Entry>)
    requires multiset(a) == multiset(b)
    ensures PortableNamespace(lower, a) <==> PortableNamespace(lower, b)
  {
    NamespaceByOccurrence(lower, a);
    NamespaceByOccurrence(lower, b);
  }

  // ---- Names that collide ----

  /** The path with every backslash turned into a slash. */
  function Slashed(path: string): string {
    seq(|path|, i requires 0 <= i < |path| => if path[i] == '\\' then '/' else path[i])
  }

  lemma {:induction false} KeyIsFolded(lower: Fold, path: string)
    ensures PortableKey(lower, path) == lower(Slashed(path))
  {
    SlashesReplaced(path);
  }

  lemma {:induction false} SlashesReplaced(path: string)
    ensures ReplaceChar(path, '\\', "/") == Slashed(path)
  {
    if path != "" {
      SlashesReplaced(path[1..]);
      assert Slashed(path) == Slashed([path[0]]) + Slashed(path[1..]);
    }
  }

  /** A regular file's folded name, with a slash after it, begins another's. */
  predicate Blocks(lower: Fold, file: Entry, other: Entry) {
    file.isFile && lower(Slashed(file.relative)) + "/" <= lower(Slashed(other.relative))
  }

  /** The portable namespace in terms of folded names: no two entries have the
      same, and no regular file stands where another entry needs a directory. */
  lemma NamespaceMeans(lower: Fold, entries: seq<Entry>)
    ensures PortableNamespace(lower, entries)
            <==> forall i, j :: 0 <= i < j < |entries| ==>
                   && lower(Slashed(entries[i].relative)) != lower(Slashed(entries[j].relative))
                   && !Blocks(lower, entries[i], entries[j]) && !Blocks(lower, entries[j], entries[i])
  {
    hide PortableKey, IsAncestor, Blocks;
    forall i, j | 0 <= i < j < |entries|
      ensures Compatible(lower, entries[i], entries[j])
              <==> && lower(Slashed(entries[i].relative)) != lower(Slashed(entries[j].relative))
                   && !Blocks(lower, entries[i], entries[j]) && !Blocks(lower, entries[j], entries[i])
    {
      CompatibleMeans(lower, entries[i], entries[j]);
    }
  }

  lemma CompatibleMeans(lower: Fold, e: Entry, f: Entry)
    ensures Compatible(lower, e, f)
            <==> && lower(Slashed(e.relative)) != lower(Slashed(f.relative)) && !Blocks(lower, e, f) && !Blocks(lower, f, e)
  {
    hide PortableKey, Slashed;
    KeyIsFolded(lower, e.relative);
    KeyIsFolded(lower, f.relative);
    AncestorMeans(PortableKey(lower, e.relative), PortableKey(lower, f.relative));
    AncestorMeans(PortableKey(lower, f.relative), PortableKey(lower, e.relative));
  }

  lemma AncestorMeans(f: string, key: string)
    ensures IsAncestor(f, key) <==> f + "/" <= key
  {
  }
}
