/** How paths are resolved in the tree of virtual disk nodes (kernel/vdisk.cxx), on a value that lists
    for each node its name and its children. */
module VirtualPaths {
  import opened Wrappers

  /** What resolution reads of a node. */
  datatype Entry<N> = Entry(name: string, children: seq<N>)

  type Tree<N> = map<N, Entry<N>>

  /** Characters a node's name has room for. */
  const NAME_ROOM: nat := 24

  /** The name node::create stores. */
  function Truncated(name: string): (r: string)
    ensures |r| <= NAME_ROOM
  {
    if |name| > NAME_ROOM then name[..NAME_ROOM] else name
  }

  /** No name is longer than a node has room for. */
  predicate ShortNames<N(==)>(t: Tree<N>) {
    forall n :: n in t ==> |t[n].name| <= NAME_ROOM
  }

  predicate Closed<N(==)>(t: Tree<N>) {
    forall n, i :: n in t && 0 <= i < |t[n].children| ==> t[n].children[i] in t
  }

  predicate Separator(c: char) {
    c == '/' || c == '\\' || c == '.'
  }

  predicate SeparatorFree(s: string) {
    forall i :: 0 <= i < |s| ==> !Separator(s[i])
  }

  /** The length of the name a path starts with. */
  function NameEnd(path: string): (len: nat)
    ensures len <= |path|
    ensures SeparatorFree(path[..len])
    ensures len < |path| ==> Separator(path[len])
  {
    if path == [] || Separator(path[0]) then 0 else
      var rest := NameEnd(path[1..]);
      assert path[..1 + rest] == [path[0]] + path[1..][..rest];
      1 + rest
  }

  /** Where the path goes on behind its first name and the separator that ends it. */
  function NextName(path: string): (i: nat)
    requires path != []
    ensures 0 < i <= |path|
  {
    var len := NameEnd(path);
    if len < |path| then len + 1 else len
  }

  // ----- What storage::compare sees of a name

  function Weight(s: string): int {
    if s == [] then 0 else s[0] as int + Weight(s[1..])
  }

  lemma {:induction false} WeightAppend(s: string, t: string)
    ensures Weight(s + t) == Weight(s) + Weight(t)
  {
    if s == [] {
      assert s + t == t;
    } else {
      assert (s + t)[1..] == s[1..] + t;
      WeightAppend(s[1..], t);
    }
  }

  /** Every character weighs its own code. */
  lemma WeightOfOne(c: char)
    ensures Weight([c]) == c as int
  {
    assert [c][1..] == [];
  }

  /** All that the comparison of two names looks at: their lengths, and the sum of their characters,
      because it adds up the differences. */
  datatype Key = Key(length: nat, weight: int)

  function KeyOf(name: string): Key {
    Key(|name|, Weight(name))
  }

  // ----- Resolution

  /** The first child whose name compares equal. */
  function Pick<N(==)>(t: Tree<N>, kids: seq<N>, name: string): (r: Option<N>)
    requires forall i :: 0 <= i < |kids| ==> kids[i] in t
    ensures r.Some? ==> r.value in kids && KeyOf(t[r.value].name) == KeyOf(name)
    ensures r.None? ==> forall i :: 0 <= i < |kids| ==> KeyOf(t[kids[i]].name) != KeyOf(name)
  {
    if kids == [] then None
    else if KeyOf(t[kids[0]].name) == KeyOf(name) then Some(kids[0])
    else Pick(t, kids[1..], name)
  }

  /** The find_file loop, from node n with path left to go. */
  function Walk<N(==)>(t: Tree<N>, n: N, path: string): (r: Option<N>)
    requires Closed(t) && n in t
    ensures r.Some? ==> r.value in t
    decreases |path|
  {
    if path == [] then Some(n) else
      match Pick(t, t[n].children, path[..NameEnd(path)])
      case None => None
      case Some(child) => Walk(t, child, path[NextName(path)..])
  }

  function Letter(c: char): bool {
    'A' <= c <= 'Z' || 'a' <= c <= 'z'
  }

  /** Fast indexing: each leading letter is the index of a child; drive is get_drive, whose result is
      read as an unsigned number, so that a negative one is behind every child. */
  function FastIndex<N(==)>(t: Tree<N>, n: N, path: string, drive: char -> int): (r: Option<(N, string)>)
    requires Closed(t) && n in t
    ensures r.Some? ==> r.value.0 in t
    decreases |path|
  {
    if path == [] || !Letter(path[0]) then Some((n, path))
    else
      var i := drive(path[0]);
      if 0 <= i < |t[n].children| then FastIndex(t, t[n].children[i], path[1..], drive) else None
  }

  /** resolve_path_relative. */
  function Resolve<N(==)>(t: Tree<N>, base: N, path: string, drive: char -> int): (r: Option<N>)
    requires Closed(t) && base in t
    ensures r.Some? ==> r.value in t
  {
    if path != [] && Separator(path[0]) then Walk(t, base, path[1..])
    else
      match FastIndex(t, base, path, drive)
      case None => None
      case Some((n, rest)) =>
        if |rest| >= 2 && rest[0] == ':' && Separator(rest[1]) then Walk(t, n, rest[2..]) else Some(n)
  }

  // ----- Resolution depends on the keys of the names only

  /** The keys of the names of a path. */
  function Keys(path: string): seq<Key>
    decreases |path|
  {
    if path == [] then [] else [KeyOf(path[..NameEnd(path)])] + Keys(path[NextName(path)..])
  }

  function PickKey<N(==)>(t: Tree<N>, kids: seq<N>, key: Key): (r: Option<N>)
    requires forall i :: 0 <= i < |kids| ==> kids[i] in t
    ensures r.Some? ==> r.value in kids
  {
    if kids == [] then None
    else if KeyOf(t[kids[0]].name) == key then Some(kids[0])
    else PickKey(t, kids[1..], key)
  }

  function WalkKeys<N(==)>(t: Tree<N>, n: N, keys: seq<Key>): (r: Option<N>)
    requires Closed(t) && n in t
    ensures r.Some? ==> r.value in t
    decreases |keys|
  {
    if keys == [] then Some(n) else
      match PickKey(t, t[n].children, keys[0])
      case None => None
      case Some(child) => WalkKeys(t, child, keys[1..])
  }

  lemma {:induction false} PickSeesKey<N>(t: Tree<N>, kids: seq<N>, name: string)
    requires forall i :: 0 <= i < |kids| ==> kids[i] in t
    ensures Pick(t, kids, name) == PickKey(t, kids, KeyOf(name))
  {
    if kids != [] {
      PickSeesKey(t, kids[1..], name);
    }
  }

  lemma {:induction false} WalkSeesKeys<N>(t: Tree<N>, n: N, path: string)
    requires Closed(t) && n in t
    ensures Walk(t, n, path) == WalkKeys(t, n, Keys(path))
    decreases |path|
  {
    if path != [] {
      var name := path[..NameEnd(path)];
      PickSeesKey(t, t[n].children, name);
      match Pick(t, t[n].children, name)
      case None =>
      case Some(child) => WalkSeesKeys(t, child, path[NextName(path)..]);
    }
  }

  /** The names of a path. */
  function Names(path: string): seq<string>
    decreases |path|
  {
    if path == [] then [] else [path[..NameEnd(path)]] + Names(path[NextName(path)..])
  }

  function KeysOf(names: seq<string>): seq<Key> {
    if names == [] then [] else [KeyOf(names[0])] + KeysOf(names[1..])
  }

  lemma {:induction false} KeysOfNames(path: string)
    ensures Keys(path) == KeysOf(Names(path))
    decreases |path|
  {
    if path != [] {
      KeysOfNames(path[NextName(path)..]);
    }
  }

  function UpTo(k: nat): (s: set<nat>)
    ensures forall n: nat :: n in s <==> n <= k
  {
    if k == 0 then {0} else UpTo(k - 1) + {k}
  }

  /** The tree of nodes 0, 1, 2, ..., each the only child of the one before, with the given names. */
  function Branch(names: seq<string>): (t: Tree<nat>)
    ensures Closed(t) && forall n: nat :: n <= |names| ==> n in t
  {
    map n | n in UpTo(|names|) ::
      Entry(if n == 0 then [] else names[n - 1], if n < |names| then [n + 1] else [])
  }

  lemma BranchAt(names: seq<string>, n: nat)
    requires n <= |names|
    ensures Branch(names)[n].children == if n < |names| then [n + 1] else []
    ensures n < |names| ==> Branch(names)[n + 1].name == names[n]
  {
  }

  lemma PickOnly<N>(t: Tree<N>, child: N, key: Key)
    requires child in t
    ensures PickKey(t, [child], key) == if KeyOf(t[child].name) == key then Some(child) else None
  {
    assert PickKey(t, [child][1..], key) == None;
  }

  lemma BranchStep(names: seq<string>, keys: seq<Key>, n: nat)
    requires n <= |names| && keys != []
    ensures WalkKeys(Branch(names), n, keys)
            == if n < |names| && KeyOf(names[n]) == keys[0] then WalkKeys(Branch(names), n + 1, keys[1..]) else None
  {
    hide Branch, Closed, KeyOf;
    BranchAt(names, n);
    if n < |names| {
      PickOnly(Branch(names), n + 1, keys[0]);
    }
  }

  lemma FirstKey(names: seq<string>, keys: seq<Key>, n: nat)
    requires n <= |names| && keys != []
    ensures keys == KeysOf(names[n..])
            <==> n < |names| && keys[0] == KeyOf(names[n]) && keys[1..] == KeysOf(names[n + 1..])
  {
    if n < |names| {
      assert names[n..][1..] == names[n + 1..];
      assert keys == [keys[0]] + keys[1..];
      assert KeysOf(names[n..])[1..] == KeysOf(names[n + 1..]);
    }
  }

  /** On one branch only the keys of its names lead to its end. */
  lemma {:induction false} BranchEnd(names: seq<string>, keys: seq<Key>, n: nat)
    requires n <= |names|
    ensures WalkKeys(Branch(names), n, keys) == Some(|names|) <==> keys == KeysOf(names[n..])
    decreases |keys|
  {
    if keys == [] {
      assert WalkKeys(Branch(names), n, keys) == Some(n);
    } else {
      hide WalkKeys, Branch, Closed, KeyOf, KeysOf;
      BranchStep(names, keys, n);
      FirstKey(names, keys, n);
      if n < |names| {
        BranchEnd(names, keys[1..], n + 1);
      }
    }
  }

  /** In every tree of nodes whose names fit. */
  ghost predicate SameEverywhere(p: string, q: string) {
    forall t: Tree<nat>, n: nat :: Closed(t) && ShortNames(t) && n in t ==> Walk(t, n, p) == Walk(t, n, q)
  }

  /** Some name of the path is longer than any node's name. */
  predicate TooLong(keys: seq<Key>) {
    exists i :: 0 <= i < |keys| && keys[i].length > NAME_ROOM
  }

  lemma EqualKeysLeadToOnePlace<N>(t: Tree<N>, n: N, p: string, q: string)
    requires Closed(t) && n in t && Keys(p) == Keys(q)
    ensures Walk(t, n, p) == Walk(t, n, q)
  {
    WalkSeesKeys(t, n, p);
    WalkSeesKeys(t, n, q);
  }

  lemma {:induction false} NoChildWithLongName<N>(t: Tree<N>, kids: seq<N>, key: Key)
    requires ShortNames(t) && key.length > NAME_ROOM
    requires forall i :: 0 <= i < |kids| ==> kids[i] in t
    ensures PickKey(t, kids, key) == None
  {
    if kids != [] {
      NoChildWithLongName(t, kids[1..], key);
    }
  }

  lemma {:induction false} LongKeysLeadNowhere<N>(t: Tree<N>, n: N, keys: seq<Key>)
    requires Closed(t) && ShortNames(t) && n in t && TooLong(keys)
    ensures WalkKeys(t, n, keys) == None
    decreases |keys|
  {
    var i :| 0 <= i < |keys| && keys[i].length > NAME_ROOM;
    if i == 0 {
      NoChildWithLongName(t, t[n].children, keys[0]);
    } else {
      assert keys[1..][i - 1] == keys[i];
      match PickKey(t, t[n].children, keys[0])
      case None =>
      case Some(child) => LongKeysLeadNowhere(t, child, keys[1..]);
    }
  }

  /** A path with such a name leads nowhere in a tree whose names fit. */
  lemma LongPathsLeadNowhere<N>(t: Tree<N>, n: N, path: string)
    requires Closed(t) && ShortNames(t) && n in t && TooLong(Keys(path))
    ensures Walk(t, n, path) == None
  {
    WalkSeesKeys(t, n, path);
    LongKeysLeadNowhere(t, n, Keys(path));
  }

  lemma {:induction false} ShortKeys(names: seq<string>)
    requires !TooLong(KeysOf(names))
    ensures forall i :: 0 <= i < |names| ==> |names[i]| <= NAME_ROOM
  {
    if names != [] {
      var keys := KeysOf(names);
      assert keys[0] == KeyOf(names[0]) && keys[1..] == KeysOf(names[1..]);
      assert forall i :: 0 <= i < |keys[1..]| ==> keys[1..][i] == keys[i + 1];
      ShortKeys(names[1..]);
    }
  }

  lemma BranchIsShort(names: seq<string>)
    requires forall i :: 0 <= i < |names| ==> |names[i]| <= NAME_ROOM
    ensures ShortNames(Branch(names))
  {
  }

  lemma BranchTellsApart(p: string, q: string)
    requires Walk(Branch(Names(p)), 0, p) == Walk(Branch(Names(p)), 0, q)
    ensures Keys(p) == Keys(q)
  {
    hide Walk, WalkKeys, Keys, KeysOf, Names, Branch;
    var names := Names(p);
    var t := Branch(names);
    KeysOfNames(p);
    assert names[0..] == names;
    WalkSeesKeys(t, 0, p);
    WalkSeesKeys(t, 0, q);
    BranchEnd(names, Keys(p), 0);
    BranchEnd(names, Keys(q), 0);
  }

  /** A path whose names fit tells itself apart from every path with other keys. */
  lemma ShortPathTellsApart(p: string, q: string)
    requires SameEverywhere(p, q) && !TooLong(Keys(p))
    ensures Keys(p) == Keys(q)
  {
    KeysOfNames(p);
    ShortKeys(Names(p));
    BranchIsShort(Names(p));
    var t := Branch(Names(p));
    hide Walk, Keys, Names, Branch, Closed, TooLong, ShortNames;
    BranchTellsApart(p, q);
  }

  /** Two paths lead to the same place in every tree that node::create can build exactly when their names
      agree one by one in length and in the sum of their characters, or both have a name that no node
      can have. */
  lemma SamePlaceExactly(p: string, q: string)
    ensures SameEverywhere(p, q) <==> Keys(p) == Keys(q) || (TooLong(Keys(p)) && TooLong(Keys(q)))
  {
    hide Walk, Keys, Names, Branch, Closed, TooLong, ShortNames;
    if Keys(p) == Keys(q) {
      forall t: Tree<nat>, n: nat | Closed(t) && ShortNames(t) && n in t
        ensures Walk(t, n, p) == Walk(t, n, q)
      {
        EqualKeysLeadToOnePlace(t, n, p, q);
      }
    }
    if TooLong(Keys(p)) && TooLong(Keys(q)) {
      forall t: Tree<nat>, n: nat | Closed(t) && ShortNames(t) && n in t
        ensures Walk(t, n, p) == Walk(t, n, q)
      {
        LongPathsLeadNowhere(t, n, p);
        LongPathsLeadNowhere(t, n, q);
      }
    }
    if SameEverywhere(p, q) {
      if !TooLong(Keys(p)) {
        ShortPathTellsApart(p, q);
      } else if !TooLong(Keys(q)) {
        ShortPathTellsApart(q, p);
      }
    }
  }

  /** Paths that differ only in which separators they use. */
  predicate SeparatorsDiffer(p: string, q: string) {
    |p| == |q| && forall i :: 0 <= i < |p| ==> p[i] == q[i] || (Separator(p[i]) && Separator(q[i]))
  }

  lemma {:induction false} SameNameEnd(p: string, q: string)
    requires SeparatorsDiffer(p, q)
    ensures NameEnd(p) == NameEnd(q) && p[..NameEnd(p)] == q[..NameEnd(p)]
  {
    if p != [] && !Separator(p[0]) {
      assert SeparatorsDiffer(p[1..], q[1..]);
      SameNameEnd(p[1..], q[1..]);
      assert p[..NameEnd(p)] == [p[0]] + p[1..][..NameEnd(p[1..])];
      assert q[..NameEnd(p)] == [q[0]] + q[1..][..NameEnd(p[1..])];
    }
  }

  lemma {:induction false} SeparatorsAreAlike(p: string, q: string)
    requires SeparatorsDiffer(p, q)
    ensures Keys(p) == Keys(q)
    decreases |p|
  {
    hide NameEnd, KeyOf;
    if p != [] {
      SameNameEnd(p, q);
      SeparatorsAreAlike(p[NextName(p)..], q[NextName(p)..]);
    }
  }

  /** Which of the three separators a path uses makes no difference, drive letters included. */
  lemma SeparatorsDoNotMatter<N>(t: Tree<N>, base: N, p: string, q: string, drive: char -> int)
    requires Closed(t) && base in t && SeparatorsDiffer(p, q)
    ensures Resolve(t, base, p, drive) == Resolve(t, base, q, drive)
  {
    if p != [] && Separator(p[0]) {
      SeparatorsAreAlike(p[1..], q[1..]);
      EqualKeysLeadToOnePlace(t, base, p[1..], q[1..]);
    } else {
      SameIndexing(t, base, p, q, drive);
      match FastIndex(t, base, p, drive)
      case None =>
      case Some((n, rest)) =>
        var rest' := FastIndex(t, base, q, drive).value.1;
        if |rest| >= 2 && rest[0] == ':' && Separator(rest[1]) {
          SeparatorsAreAlike(rest[2..], rest'[2..]);
          EqualKeysLeadToOnePlace(t, n, rest[2..], rest'[2..]);
        }
    }
  }

  lemma {:induction false} SameIndexing<N>(t: Tree<N>, n: N, p: string, q: string, drive: char -> int)
    requires Closed(t) && n in t && SeparatorsDiffer(p, q)
    ensures var r, r' := FastIndex(t, n, p, drive), FastIndex(t, n, q, drive);
            r.Some? == r'.Some? && (r.Some? ==> r.value.0 == r'.value.0 && SeparatorsDiffer(r.value.1, r'.value.1))
    decreases |p|
  {
    if p != [] && Letter(p[0]) {
      var i := drive(p[0]);
      if 0 <= i < |t[n].children| {
        assert SeparatorsDiffer(p[1..], q[1..]);
        SameIndexing(t, t[n].children[i], p[1..], q[1..], drive);
      }
    }
  }

  /** The path with slashes for backslashes and full stops. */
  function Slashed(p: string): (r: string)
    ensures |r| == |p|
    ensures forall i :: 0 <= i < |p| ==> r[i] == if p[i] == '\\' || p[i] == '.' then '/' else p[i]
  {
    if p == [] then [] else [if p[0] == '\\' || p[0] == '.' then '/' else p[0]] + Slashed(p[1..])
  }

  /** It leads to the same place in every tree. */
  lemma SlashesForAll<N>(t: Tree<N>, base: N, p: string, drive: char -> int)
    requires Closed(t) && base in t
    ensures Resolve(t, base, Slashed(p), drive) == Resolve(t, base, p, drive)
  {
    hide Resolve, Slashed;
    SeparatorsDoNotMatter(t, base, Slashed(p), p, drive);
  }

  // ----- Letters in front

  /** A single letter of the alphabet is the index of a child; any other single character leads nowhere else. */
  lemma SingleCharacter<N>(t: Tree<N>, base: N, c: char, drive: char -> int)
    requires Closed(t) && base in t
    ensures Resolve(t, base, [c], drive)
         == if 65 <= c as int <= 90 || 97 <= c as int <= 122 then
              if 0 <= drive(c) < |t[base].children| then Some(t[base].children[drive(c)]) else None
            else Some(base)
  {
    assert [c][1..] == [];
    if Letter(c) && 0 <= drive(c) < |t[base].children| {
      var child := t[base].children[drive(c)];
      assert FastIndex(t, child, [], drive) == Some((child, []));
    }
  }

  /** Behind a letter only a colon with a separator goes on by names; then names start behind both. */
  lemma BehindLetter<N>(t: Tree<N>, base: N, c: char, drive: char -> int, rest: string)
    requires Closed(t) && base in t && 'A' <= c <= 'Z' && 0 <= drive(c) < |t[base].children|
    ensures var child := t[base].children[drive(c)];
            && child in t
            && Resolve(t, base, [c] + ":/" + rest, drive) == Walk(t, child, rest)
            && Resolve(t, base, [c] + "/" + rest, drive) == Some(child)
            && Resolve(t, base, [c] + ":", drive) == Some(child)
            && Resolve(t, base, [c] + ":A" + rest, drive) == Some(child)
  {
    hide Walk;
    var child := t[base].children[drive(c)];
    LetterTaken(t, base, c, drive, ":/" + rest);
    LetterTaken(t, base, c, drive, "/" + rest);
    LetterTaken(t, base, c, drive, ":");
    LetterTaken(t, base, c, drive, ":A" + rest);
    assert [c] + ":/" + rest == [c] + (":/" + rest) && [c] + ":A" + rest == [c] + (":A" + rest);
    assert [c] + "/" + rest == [c] + ("/" + rest);
    assert (":/" + rest)[2..] == rest;
  }

  lemma LetterTaken<N>(t: Tree<N>, base: N, c: char, drive: char -> int, rest: string)
    requires Closed(t) && base in t && 'A' <= c <= 'Z' && 0 <= drive(c) < |t[base].children|
    requires rest != [] && !Letter(rest[0])
    ensures var child := t[base].children[drive(c)];
            child in t && FastIndex(t, base, [c] + rest, drive) == Some((child, rest))
    ensures !Separator(c)
  {
    assert ([c] + rest)[1..] == rest;
  }

  // ----- Concatenation

  /** One path behind another: a separator between them, unless the first ends with one or is empty. */
  function Join(a: string, b: string, separator: char): string {
    if a == [] || Separator(a[|a| - 1]) then a + b else a + [separator] + b
  }

  lemma {:induction false} NameEndOfJoin(a: string, b: string, separator: char)
    requires a != [] && Separator(separator)
    ensures var j := Join(a, b, separator);
            j != [] && NameEnd(j) == NameEnd(a) && j[..NameEnd(j)] == a[..NameEnd(a)]
  {
    var j := Join(a, b, separator);
    assert j[0] == a[0];
    if !Separator(a[0]) {
      if |a| == 1 {
        assert j[1..] == [separator] + b;
      } else {
        assert j[1..] == Join(a[1..], b, separator);
        NameEndOfJoin(a[1..], b, separator);
      }
      assert a[..NameEnd(a)] == j[..NameEnd(a)];
    }
  }

  lemma RestOfJoin(a: string, b: string, separator: char)
    requires a != [] && Separator(separator)
    ensures Join(a, b, separator) != []
    ensures Join(a, b, separator)[NextName(Join(a, b, separator))..] == Join(a[NextName(a)..], b, separator)
  {
    hide NameEnd;
    NameEndOfJoin(a, b, separator);
    var j := Join(a, b, separator);
    var k := NextName(a);
    if k == |a| {
      assert a[k..] == [];
      assert j[NextName(j)..] == b;
    } else {
      assert a[k..][|a[k..]| - 1] == a[|a| - 1];
      assert j[k..] == Join(a[k..], b, separator);
    }
  }

  lemma {:induction false} KeysOfJoin(a: string, b: string, separator: char)
    requires Separator(separator)
    ensures Keys(Join(a, b, separator)) == Keys(a) + Keys(b)
    decreases |a|
  {
    hide NameEnd;
    if a != [] {
      NameEndOfJoin(a, b, separator);
      RestOfJoin(a, b, separator);
      KeysOfJoin(a[NextName(a)..], b, separator);
    } else {
      assert a + b == b;
    }
  }

  lemma {:induction false} WalkKeysAppend<N>(t: Tree<N>, n: N, a: seq<Key>, b: seq<Key>)
    requires Closed(t) && n in t
    ensures WalkKeys(t, n, a + b) == match WalkKeys(t, n, a)
                                     case None => None
                                     case Some(m) => WalkKeys(t, m, b)
    decreases |a|
  {
    if a == [] {
      assert a + b == b;
    } else {
      assert (a + b)[1..] == a[1..] + b;
      match PickKey(t, t[n].children, a[0])
      case None =>
      case Some(child) => WalkKeysAppend(t, child, a[1..], b);
    }
  }

  /** Resolving one path behind another is resolving the second from where the first leads. */
  lemma WalkJoin<N>(t: Tree<N>, n: N, a: string, b: string, separator: char)
    requires Closed(t) && n in t && Separator(separator)
    ensures Walk(t, n, Join(a, b, separator)) == match Walk(t, n, a)
                                                 case None => None
                                                 case Some(m) => Walk(t, m, b)
  {
    WalkSeesKeys(t, n, Join(a, b, separator));
    WalkSeesKeys(t, n, a);
    KeysOfJoin(a, b, separator);
    WalkKeysAppend(t, n, Keys(a), Keys(b));
    match Walk(t, n, a)
    case None =>
    case Some(m) => WalkSeesKeys(t, m, b);
  }

  // ----- Growing trees

  /** t' has all of t: names are the same and children have only been added behind the others. */
  predicate Grown<N(==)>(t: Tree<N>, t': Tree<N>) {
    forall n :: n in t ==> n in t' && t'[n].name == t[n].name && t[n].children <= t'[n].children
  }

  lemma GrownTransitive<N>(t: Tree<N>, t': Tree<N>, t'': Tree<N>)
    requires Grown(t, t') && Grown(t', t'')
    ensures Grown(t, t'')
  {
    forall n | n in t ensures n in t'' && t''[n].name == t[n].name && t[n].children <= t''[n].children {
      assert n in t';
    }
  }

  lemma {:induction false} PickInGrown<N>(t: Tree<N>, t': Tree<N>, kids: seq<N>, more: seq<N>, key: Key)
    requires Grown(t, t')
    requires forall i :: 0 <= i < |kids| ==> kids[i] in t
    requires forall i :: 0 <= i < |more| ==> more[i] in t'
    ensures PickKey(t', kids + more, key)
            == if PickKey(t, kids, key).Some? then PickKey(t, kids, key) else PickKey(t', more, key)
  {
    if kids == [] {
      assert kids + more == more;
    } else {
      assert (kids + more)[1..] == kids[1..] + more;
      assert kids[0] in t;
      PickInGrown(t, t', kids[1..], more, key);
    }
  }

  lemma {:induction false} WalkKeysInGrown<N>(t: Tree<N>, t': Tree<N>, n: N, keys: seq<Key>)
    requires Closed(t) && Closed(t') && Grown(t, t') && n in t
    requires WalkKeys(t, n, keys).Some?
    ensures WalkKeys(t', n, keys) == WalkKeys(t, n, keys)
    decreases |keys|
  {
    if keys != [] {
      var kids, kids' := t[n].children, t'[n].children;
      var more := kids'[|kids|..];
      assert kids' == kids + more;
      PickInGrown(t, t', kids, more, keys[0]);
      WalkKeysInGrown(t, t', PickKey(t, kids, keys[0]).value, keys[1..]);
    }
  }

  lemma {:induction false} IndexInGrown<N>(t: Tree<N>, t': Tree<N>, n: N, path: string, drive: char -> int)
    requires Closed(t) && Closed(t') && Grown(t, t') && n in t
    requires FastIndex(t, n, path, drive).Some?
    ensures FastIndex(t', n, path, drive) == FastIndex(t, n, path, drive)
    decreases |path|
  {
    if path != [] && Letter(path[0]) {
      IndexInGrown(t, t', t[n].children[drive(path[0])], path[1..], drive);
    }
  }

  /** A path that leads to a node leads to that node in every tree that grows out of this one. */
  lemma GrowthKeepsPaths<N>(t: Tree<N>, t': Tree<N>, base: N, path: string, drive: char -> int)
    requires Closed(t) && Closed(t') && Grown(t, t') && base in t
    requires Resolve(t, base, path, drive).Some?
    ensures Resolve(t', base, path, drive) == Resolve(t, base, path, drive)
  {
    if path != [] && Separator(path[0]) {
      WalkInGrown(t, t', base, path[1..]);
    } else {
      IndexInGrown(t, t', base, path, drive);
      var (n, rest) := FastIndex(t, base, path, drive).value;
      if |rest| >= 2 && rest[0] == ':' && Separator(rest[1]) {
        WalkInGrown(t, t', n, rest[2..]);
      }
    }
  }

  lemma WalkInGrown<N>(t: Tree<N>, t': Tree<N>, n: N, path: string)
    requires Closed(t) && Closed(t') && Grown(t, t') && n in t
    requires Walk(t, n, path).Some?
    ensures Walk(t', n, path) == Walk(t, n, path)
  {
    WalkSeesKeys(t, n, path);
    WalkSeesKeys(t', n, path);
    WalkKeysInGrown(t, t', n, Keys(path));
  }

  // ----- Adding a node

  /** The tree with the new node behind the children of parent. */
  function Added<N(==)>(t: Tree<N>, parent: N, node: N, name: string): Tree<N>
    requires parent in t && node !in t
  {
    t[parent := Entry(t[parent].name, t[parent].children + [node])][node := Entry(name, [])]
  }

  lemma AddingGrows<N>(t: Tree<N>, parent: N, node: N, name: string)
    requires Closed(t) && parent in t && node !in t
    ensures Closed(Added(t, parent, node, name)) && Grown(t, Added(t, parent, node, name))
  {
    var t' := Added(t, parent, node, name);
    forall n, i | n in t' && 0 <= i < |t'[n].children| ensures t'[n].children[i] in t' {
      if n in t && i < |t[n].children| {
        assert t'[n].children[i] == t[n].children[i];
      } else {
        assert n == parent && t'[n].children[i] == node;
      }
    }
  }

  /** No child compares equal to the name. */
  predicate NoneLike<N(==)>(t: Tree<N>, kids: seq<N>, name: string)
    requires forall i :: 0 <= i < |kids| ==> kids[i] in t
  {
    forall i :: 0 <= i < |kids| ==> KeyOf(t[kids[i]].name) != KeyOf(name)
  }

  /** A call of node::create: where, under which name, and the node it makes. */
  datatype Creation<N> = Creation(path: string, name: string, node: N)

  /** The tree behind it; a path that leads nowhere stands for the root. */
  function Created<N(==)>(t: Tree<N>, root: N, c: Creation<N>, drive: char -> int): (r: Tree<N>)
    requires Closed(t) && root in t && c.node !in t
    ensures root in r
  {
    var found := Resolve(t, root, c.path, drive);
    Added(t, if found.Some? then found.value else root, c.node, Truncated(c.name))
  }

  lemma CreatingGrows<N>(t: Tree<N>, root: N, c: Creation<N>, drive: char -> int)
    requires Closed(t) && root in t && c.node !in t
    ensures var t' := Created(t, root, c, drive);
            Closed(t') && Grown(t, t') && t'.Keys == t.Keys + {c.node} && (ShortNames(t) ==> ShortNames(t'))
  {
    var found := Resolve(t, root, c.path, drive);
    AddingGrows(t, if found.Some? then found.value else root, c.node, Truncated(c.name));
  }

  /** Every call makes a node of its own. */
  predicate FreshNodes<N(==)>(t: Tree<N>, cs: seq<Creation<N>>) {
    && (forall i :: 0 <= i < |cs| ==> cs[i].node !in t)
    && (forall i, j :: 0 <= i < j < |cs| ==> cs[i].node != cs[j].node)
  }

  lemma OneCreationIsFresh<N>(t: Tree<N>, c: Creation<N>)
    requires c.node !in t
    ensures FreshNodes(t, [c])
  {
  }

  ghost function CreatedAll<N>(t: Tree<N>, root: N, cs: seq<Creation<N>>, drive: char -> int): (r: Tree<N>)
    requires Closed(t) && root in t && FreshNodes(t, cs)
    ensures Closed(r) && root in r && Grown(t, r) && (ShortNames(t) ==> ShortNames(r))
    decreases |cs|
  {
    if cs == [] then t
    else
      CreatingGrows(t, root, cs[0], drive);
      var t1 := Created(t, root, cs[0], drive);
      assert forall i :: 0 <= i < |cs[1..]| ==> cs[1..][i] == cs[i + 1];
      var r := CreatedAll(t1, root, cs[1..], drive);
      GrownTransitive(t, t1, r);
      r
  }

  /** Over any sequence of creations every path that leads to a node goes on leading to it. */
  lemma CreationsKeepPaths<N>(t: Tree<N>, root: N, cs: seq<Creation<N>>, base: N, path: string, drive: char -> int)
    requires Closed(t) && root in t && FreshNodes(t, cs) && base in t
    requires Resolve(t, base, path, drive).Some?
    ensures Resolve(CreatedAll(t, root, cs, drive), base, path, drive) == Resolve(t, base, path, drive)
  {
    GrowthKeepsPaths(t, CreatedAll(t, root, cs, drive), base, path, drive);
  }

  lemma OneName(name: string)
    requires name != [] && SeparatorFree(name)
    ensures Keys(name) == [KeyOf(name)]
  {
    NameEndAt(name, |name|);
    assert name[..|name|] == name;
  }

  lemma NameEndAt(name: string, k: nat)
    requires k <= |name| && SeparatorFree(name[..k]) && (k < |name| ==> Separator(name[k]))
    ensures NameEnd(name) == k
  {
    var len := NameEnd(name);
    assert forall i :: 0 <= i < k ==> name[i] == name[..k][i];
    assert forall i :: 0 <= i < len ==> name[i] == name[..len][i];
  }

  // ----- Trees without cycles

  /** Children rank above their parents. */
  predicate Ranked<N(==)>(t: Tree<N>, rank: map<N, nat>) {
    && t.Keys <= rank.Keys
    && forall n, i :: n in t && 0 <= i < |t[n].children| ==>
         t[n].children[i] in rank && rank[n] < rank[t[n].children[i]]
  }

  lemma AllRanked<N>(t: Tree<N>, rank: map<N, nat>)
    requires Ranked(t, rank)
    ensures forall n :: n in t ==> n in rank
  {
  }

  function RankAdded<N(==)>(rank: map<N, nat>, parent: N, node: N): map<N, nat>
    requires parent in rank
  {
    rank[node := rank[parent] + 1]
  }

  lemma AddedRanked<N>(t: Tree<N>, rank: map<N, nat>, parent: N, node: N, name: string)
    requires Closed(t) && Ranked(t, rank) && parent in t && node !in t
    ensures Ranked(Added(t, parent, node, name), RankAdded(rank, parent, node))
  {
    var t', rank' := Added(t, parent, node, name), RankAdded(rank, parent, node);
    forall n, i | n in t' && 0 <= i < |t'[n].children|
      ensures t'[n].children[i] in rank' && rank'[n] < rank'[t'[n].children[i]]
    {
      if n in t && i < |t[n].children| {
        assert t'[n].children[i] == t[n].children[i] && t[n].children[i] in t;
      } else {
        assert n == parent && t'[n].children[i] == node;
      }
    }
  }

  /** From a node behind its parent, or beside it, the new node is not reached. */
  lemma {:induction false} NotReached<N>(t: Tree<N>, rank: map<N, nat>, parent: N, node: N, name: string,
                                         n: N, path: string)
    requires Closed(t) && Ranked(t, rank) && parent in t && node !in t
    requires n in t && rank[parent] < rank[n]
    ensures Closed(Added(t, parent, node, name)) && Walk(Added(t, parent, node, name), n, path) != Some(node)
    decreases |path|
  {
    AddingGrows(t, parent, node, name);
    var t' := Added(t, parent, node, name);
    hide Closed, NameEnd, KeyOf;
    if path != [] {
      ChildrenIn(t, n);
      assert t'[n] == t[n];
      var child := Pick(t', t[n].children, path[..NameEnd(path)]);
      if child.Some? {
        NotReached(t, rank, parent, node, name, child.value, path[NextName(path)..]);
      }
    }
  }

  // ----- Finding the new node

  /** The names under which a new node can be found: those that fit and hold no separator, and those that
      lose just their last character to the cut, a separator. */
  predicate Findable(name: string) {
    && name != []
    && if |name| <= NAME_ROOM then SeparatorFree(name)
       else |name| == NAME_ROOM + 1 && Separator(name[NAME_ROOM]) && SeparatorFree(name[..NAME_ROOM])
  }

  /** Names that fit and hold none of the three characters, whatever others they hold. */
  lemma PlainNameFindable(name: string)
    requires 0 < |name| <= 24
    requires forall i :: 0 <= i < |name| ==> name[i] != '/' && name[i] != '\\' && name[i] != '.'
    ensures Findable(name)
  {
  }

  lemma FindableExactly(name: string)
    requires name != []
    ensures Findable(name) <==> NextName(name) == |name| && NameEnd(name) == |Truncated(name)|
    ensures NameEnd(name) == |Truncated(name)| ==> name[..NameEnd(name)] == Truncated(name)
  {
    hide NameEnd;
    var len := NameEnd(name);
    assert name[..|name|] == name;
    assert SeparatorFree(name[..len]) && (len < |name| ==> Separator(name[len]));
    if Findable(name) {
      NameEndAt(name, |Truncated(name)|);
    }
  }

  /** From its parent the new node, whose name is cut off at 24 characters, is found under the name it was
      created with exactly when that name is findable and no older child has a name of the same length and
      the same sum of characters. */
  lemma WalkFindsExactly<N>(t: Tree<N>, rank: map<N, nat>, parent: N, node: N, name: string)
    requires Closed(t) && Ranked(t, rank) && parent in t && node !in t
    ensures Closed(Added(t, parent, node, Truncated(name)))
    ensures Walk(Added(t, parent, node, Truncated(name)), parent, name) == Some(node)
            <==> Findable(name) && NoneLike(t, t[parent].children, Truncated(name))
  {
    hide Closed, Ranked, KeyOf, NameEnd, Truncated, Findable;
    var t' := Added(t, parent, node, Truncated(name));
    AddingGrows(t, parent, node, Truncated(name));
    if name == [] {
      assert !Findable(name) by { NothingIsNotFindable(); }
    } else {
      FindableExactly(name);
      SameLength(name);
      var first := name[..NameEnd(name)];
      var rest := name[NextName(name)..];
      NewChildPicked(t, parent, node, Truncated(name), first);
      ChildrenIn(t, parent);
      PickedOrNone(t, parent, first);
      var older := Pick(t, t[parent].children, first);
      if older.Some? {
        ChildRanked(t, rank, parent, older.value);
        NotReached(t, rank, parent, node, Truncated(name), older.value, rest);
      } else if KeyOf(Truncated(name)) == KeyOf(first) {
        NothingBelow(t', node, rest);
      }
    }
  }

  lemma NothingIsNotFindable()
    ensures !Findable([])
  {
  }

  lemma SameLength(name: string)
    requires name != [] && (NameEnd(name) == |Truncated(name)| ==> name[..NameEnd(name)] == Truncated(name))
    ensures KeyOf(Truncated(name)) == KeyOf(name[..NameEnd(name)]) <==> NameEnd(name) == |Truncated(name)|
  {
    hide NameEnd, Truncated, Weight;
  }

  lemma ChildRanked<N>(t: Tree<N>, rank: map<N, nat>, parent: N, child: N)
    requires Ranked(t, rank) && parent in t && child in t[parent].children
    ensures child in rank && rank[parent] < rank[child]
  {
  }

  lemma NothingBelow<N>(t: Tree<N>, n: N, path: string)
    requires Closed(t) && n in t && t[n].children == []
    ensures Walk(t, n, path) == if path == [] then Some(n) else None
  {
  }

  lemma PickedOrNone<N>(t: Tree<N>, parent: N, name: string)
    requires Closed(t) && parent in t
    ensures var older := Pick(t, t[parent].children, name);
            (older.None? <==> NoneLike(t, t[parent].children, name)) && (older.Some? ==> older.value in t)
  {
  }

  /** Below its parent the new node is picked when no older child is and its stored name compares equal. */
  lemma NewChildPicked<N>(t: Tree<N>, parent: N, node: N, stored: string, name: string)
    requires Closed(t) && parent in t && node !in t
    ensures Closed(Added(t, parent, node, stored))
    ensures var t' := Added(t, parent, node, stored);
            var older := Pick(t, t[parent].children, name);
            Pick(t', t'[parent].children, name)
            == if older.Some? then older else if KeyOf(stored) == KeyOf(name) then Some(node) else None
  {
    hide Pick, PickKey, Closed;
    var t' := Added(t, parent, node, stored);
    AddingGrows(t, parent, node, stored);
    var kids := t[parent].children;
    assert t'[parent].children == kids + [node];
    ChildrenIn(t, parent);
    PickInGrown(t, t', kids, [node], KeyOf(name));
    PickSeesKey(t, kids, name);
    PickSeesKey(t', kids + [node], name);
    PickOnly(t', node, KeyOf(name));
  }

  lemma ChildrenIn<N>(t: Tree<N>, n: N)
    requires Closed(t) && n in t
    ensures forall i :: 0 <= i < |t[n].children| ==> t[n].children[i] in t
  {
  }

  /** Letters, a colon, and then the end or a separator. */
  predicate ColonPath(path: string) {
    path != [] && if Letter(path[0]) then ColonPath(path[1..])
                  else path[0] == ':' && (|path| == 1 || Separator(path[1]))
  }

  /** Paths whose resolution goes on by names, so that a name may be added to them. */
  predicate GoesOn(path: string) {
    path != [] && (Separator(path[0]) || ColonPath(path))
  }

  lemma JoinBehindSeparator(path: string, name: string, separator: char)
    requires path != [] && Separator(path[0])
    ensures var j := Join(path, name, separator);
            j != [] && j[0] == path[0] && j[1..] == Join(path[1..], name, separator)
  {
  }

  /** What the letters in front leave over of a joined path. */
  lemma {:induction false} IndexOfJoin<N>(t: Tree<N>, n: N, path: string, name: string, separator: char,
                                          drive: char -> int)
    requires Closed(t) && n in t && Separator(separator) && path != []
    requires FastIndex(t, n, path, drive).Some?
    ensures var (m, rest) := FastIndex(t, n, path, drive).value;
            && FastIndex(t, n, Join(path, name, separator), drive)
               == Some((m, if rest == [] then [separator] + name else Join(rest, name, separator)))
            && (rest == [] || !Letter(rest[0]))
            && (ColonPath(path) <==> rest != [] && rest[0] == ':' && (|rest| == 1 || Separator(rest[1])))
    decreases |path|
  {
    hide Closed;
    var j := Join(path, name, separator);
    assert j[0] == path[0];
    if Letter(path[0]) {
      ChildrenIn(t, n);
      var m := t[n].children[drive(path[0])];
      if |path| == 1 {
        assert j[1..] == [separator] + name;
        assert FastIndex(t, m, j[1..], drive) == Some((m, [separator] + name));
      } else {
        assert j[1..] == Join(path[1..], name, separator);
        IndexOfJoin(t, m, path[1..], name, separator, drive);
      }
    }
  }

  /** A name behind a path is looked for where the path leads, if its resolution goes on by names; otherwise
      it is not looked at. */
  lemma ResolveBelow<N>(t: Tree<N>, base: N, path: string, parent: N, name: string, separator: char, drive: char -> int)
    requires Closed(t) && base in t && parent in t && Separator(separator)
    requires path != [] && Resolve(t, base, path, drive) == Some(parent)
    ensures Resolve(t, base, Join(path, name, separator), drive)
            == if GoesOn(path) then Walk(t, parent, name) else Some(parent)
  {
    hide Walk, FastIndex, Closed;
    var j := Join(path, name, separator);
    if Separator(path[0]) {
      JoinBehindSeparator(path, name, separator);
      WalkJoin(t, base, path[1..], name, separator);
    } else {
      IndexOfJoin(t, base, path, name, separator, drive);
      assert j[0] == path[0];
      var (m, rest) := FastIndex(t, base, path, drive).value;
      if ColonPath(path) {
        BehindColon(t, m, rest, name, separator);
      }
    }
  }

  lemma BehindColon<N>(t: Tree<N>, n: N, rest: string, name: string, separator: char)
    requires Closed(t) && n in t && Separator(separator)
    requires rest != [] && rest[0] == ':' && (|rest| == 1 || Separator(rest[1]))
    ensures var j := Join(rest, name, separator);
            && |j| >= 2 && j[0] == ':' && Separator(j[1])
            && Walk(t, n, j[2..]) == match (if |rest| == 1 then Some(n) else Walk(t, n, rest[2..]))
                                     case None => None
                                     case Some(m) => Walk(t, m, name)
  {
    hide Walk, Closed;
    var j := Join(rest, name, separator);
    if |rest| == 1 {
      assert j[2..] == name;
    } else {
      assert j[2..] == Join(rest[2..], name, separator);
      WalkJoin(t, n, rest[2..], name, separator);
    }
  }

  /** The new node is found under the path of its parent and the name it was created with exactly when
      resolution goes on by names behind that path, the name is findable and no older child of the parent
      has a name of the same length and the same sum of characters. */
  lemma NewNodeFoundExactly<N>(t: Tree<N>, rank: map<N, nat>, base: N, path: string, separator: char,
                               parent: N, node: N, name: string, drive: char -> int)
    requires Closed(t) && Ranked(t, rank) && base in t && node !in t && Separator(separator)
    requires path != [] && Resolve(t, base, path, drive) == Some(parent)
    ensures Closed(Added(t, parent, node, Truncated(name)))
    ensures Resolve(Added(t, parent, node, Truncated(name)), base, Join(path, name, separator), drive) == Some(node)
            <==> GoesOn(path) && Findable(name) && NoneLike(t, t[parent].children, Truncated(name))
  {
    hide Resolve, Walk, Join, KeyOf, Closed, Added, Truncated, Ranked, GoesOn, Findable, NoneLike;
    var t' := Added(t, parent, node, Truncated(name));
    AddingGrows(t, parent, node, Truncated(name));
    GrowthKeepsPaths(t, t', base, path, drive);
    ResolveBelow(t', base, path, parent, name, separator, drive);
    WalkFindsExactly(t, rank, parent, node, name);
  }

  /** When an older child compares equal to a name of one piece, that child is found in place of the node. */
  lemma OlderChildFound<N>(t: Tree<N>, parent: N, node: N, name: string)
    requires Closed(t) && parent in t && node !in t && name != [] && NextName(name) == |name|
    requires Pick(t, t[parent].children, name[..NameEnd(name)]).Some?
    ensures Closed(Added(t, parent, node, Truncated(name)))
    ensures Walk(Added(t, parent, node, Truncated(name)), parent, name)
            == Pick(t, t[parent].children, name[..NameEnd(name)])
  {
    hide Closed, KeyOf, NameEnd, Truncated;
    AddingGrows(t, parent, node, Truncated(name));
    NewChildPicked(t, parent, node, Truncated(name), name[..NameEnd(name)]);
  }

  /** With any of the three separators between path and name. */
  ghost predicate FoundExactly<N>(t: Tree<N>, t': Tree<N>, root: N, parent: N, c: Creation<N>, drive: char -> int)
    requires Closed(t) && Closed(t') && root in t' && parent in t
  {
    forall separator {:trigger Join(c.path, c.name, separator)} :: Separator(separator) ==>
      (Resolve(t', root, Join(c.path, c.name, separator), drive) == Some(c.node)
       <==> GoesOn(c.path) && Findable(c.name) && NoneLike(t, t[parent].children, Truncated(c.name)))
  }

  /** node::create under a path that leads somewhere. */
  lemma CreatedFoundExactly<N>(t: Tree<N>, rank: map<N, nat>, root: N, parent: N, c: Creation<N>, drive: char -> int)
    requires Closed(t) && Ranked(t, rank) && root in t && c.node !in t
    requires c.path != [] && Resolve(t, root, c.path, drive) == Some(parent)
    ensures Closed(Created(t, root, c, drive)) && FoundExactly(t, Created(t, root, c, drive), root, parent, c, drive)
  {
    hide Resolve, Join, NoneLike, Added, Closed, Separator, Ranked, GoesOn, Findable;
    CreatingGrows(t, root, c, drive);
    ChildrenIn(t, parent);
    forall separator | Separator(separator)
      ensures Resolve(Created(t, root, c, drive), root, Join(c.path, c.name, separator), drive) == Some(c.node)
              <==> GoesOn(c.path) && Findable(c.name) && NoneLike(t, t[parent].children, Truncated(c.name))
    {
      NewNodeFoundExactly(t, rank, root, c.path, separator, parent, c.node, c.name, drive);
    }
  }

  /** A node under an empty root. */
  function OnlyChild(name: string): (t: Tree<nat>)
    ensures Closed(t) && ShortNames(t) && 0 in t
  {
    var t: Tree<nat> := map[0 := Entry("", [])];
    AddingGrows(t, 0, 1, Truncated(name));
    Added(t, 0, 1, Truncated(name))
  }

  /** It is found by the name it was created with exactly when that name is findable. */
  lemma OnlyChildFoundExactly(name: string, drive: char -> int)
    ensures Resolve(OnlyChild(name), 0, "/" + name, drive) == Some(1) <==> Findable(name)
  {
    var t: Tree<nat> := map[0 := Entry("", [])];
    assert "/"[1..] == [];
    assert Join("/", name, '/') == "/" + name;
    NewNodeFoundExactly(t, map[0 := 0], 0, "/", '/', 0, 1, name, drive);
  }

  lemma OnlyChildWithLongName(name: string, drive: char -> int)
    requires |name| > NAME_ROOM && SeparatorFree(name)
    ensures Resolve(OnlyChild(name), 0, "/" + name, drive) == None
  {
    hide OnlyChild;
    OneName(name);
    assert Keys(name)[0].length == |name|;
    LongPathsLeadNowhere(OnlyChild(name), 0, name);
    assert ("/" + name)[1..] == name;
  }

  /** A name of 25 characters leads nowhere ... */
  lemma LongNameIsNotFound(drive: char -> int)
    ensures Resolve(OnlyChild("ABCDEFGHIJKLMNOPQRSTUVWXY"), 0, "/" + "ABCDEFGHIJKLMNOPQRSTUVWXY", drive) == None
  {
    hide Resolve, OnlyChild;
    OnlyChildWithLongName("ABCDEFGHIJKLMNOPQRSTUVWXY", drive);
  }

  /** ... but with a separator as the last of them it leads to the node ... */
  lemma LastSeparatorIsCut(drive: char -> int)
    ensures Resolve(OnlyChild("ABCDEFGHIJKLMNOPQRSTUVWX."), 0, "/" + "ABCDEFGHIJKLMNOPQRSTUVWX.", drive) == Some(1)
  {
    hide Resolve, OnlyChild;
    OnlyChildFoundExactly("ABCDEFGHIJKLMNOPQRSTUVWX.", drive);
  }

  /** ... and a name with a separator inside does not, however short. */
  lemma SeparatedNameIsNotFound(drive: char -> int)
    ensures Resolve(OnlyChild("A.B"), 0, "/" + "A.B", drive) != Some(1)
  {
    hide Resolve, OnlyChild;
    OnlyChildFoundExactly("A.B", drive);
    assert Separator("A.B"[1]);
  }

  /** Two different names of one length and sum: under one parent the second node cannot be reached. */
  lemma AnagramHidesNode()
    ensures var t: Tree<nat> := map[0 := Entry("", [1]), 1 := Entry("AB", [])];
            var t' := Added(t, 0, 2, "BA");
            Closed(t') && Walk(t', 0, "BA") == Some(1) && t'[1].name != "BA" && t'[2].name == "BA"
  {
    var t: Tree<nat> := map[0 := Entry("", [1]), 1 := Entry("AB", [])];
    var t' := Added(t, 0, 2, "BA");
    AddingGrows(t, 0, 2, "BA");
    OneName("BA");
    WalkSeesKeys(t', 0, "BA");
    assert Weight("AB") == 131 && Weight("BA") == 131 by {
      assert "AB"[1..] == "B" && "BA"[1..] == "A" && "A"[1..] == [] && "B"[1..] == [];
    }
    assert PickKey(t', t'[0].children, KeyOf("BA")) == Some(1);
    assert Keys("BA")[1..] == [];
  }
}
