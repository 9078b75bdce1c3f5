/** The virtual disk nodes and the methods that resolve paths to them and add them (kernel/vdisk.cxx). */
module VirtualDisk {
  import opened Wrappers
  import opened VirtualPaths

  class Node {
    var name: string
    var children: seq<Node>

    constructor (name: string)
      ensures this.name == name && children == []
    {
      this.name := name;
      children := [];
    }
  }

  /** storage::compare: the sum of the differences. */
  method Compare(s1: string, s2: string, n: nat) returns (diff: int)
    requires n <= |s1| && n <= |s2|
    ensures diff == Weight(s1[..n]) - Weight(s2[..n])
  {
    diff := 0;
    var i := 0;
    while i < n
      invariant i <= n && diff == Weight(s1[..i]) - Weight(s2[..i])
    {
      assert s1[..i + 1] == s1[..i] + [s1[i]] && s2[..i + 1] == s2[..i] + [s2[i]];
      WeightAppend(s1[..i], [s1[i]]);
      WeightAppend(s2[..i], [s2[i]]);
      diff := diff + (s1[i] as int - s2[i] as int);
      i := i + 1;
    }
  }

  /** break_p for the three separators, as the distance to the separator or to the end. */
  method BreakP(s: string, from: nat) returns (len: nat)
    requires from <= |s|
    ensures len == NameEnd(s[from..])
  {
    var i := from;
    while i < |s| && !Separator(s[i])
      invariant from <= i <= |s| && NameEnd(s[from..]) == i - from + NameEnd(s[i..])
    {
      assert s[i..][1..] == s[i + 1..];
      i := i + 1;
    }
    len := i - from;
  }

  lemma PickFrom<N>(t: Tree<N>, kids: seq<N>, i: nat, name: string)
    requires i < |kids| && forall k :: 0 <= k < |kids| ==> kids[k] in t
    ensures Pick(t, kids[i..], name)
            == if KeyOf(t[kids[i]].name) == KeyOf(name) then Some(kids[i]) else Pick(t, kids[i + 1..], name)
  {
    assert kids[i..][1..] == kids[i + 1..];
  }

  lemma NothingToPick<N>(t: Tree<N>, kids: seq<N>, name: string)
    requires kids == []
    ensures Pick(t, kids, name) == None
  {
  }

  class Disk {
    const root: Node
    ghost var nodes: set<Node>
    /** Children rank above their parents. */
    ghost var rank: map<Node, nat>

    ghost predicate Valid()
      reads this, nodes
    {
      root in nodes && Closed(View()) && ShortNames(View()) && Ranked(View(), rank)
    }

    ghost function View(): (t: Tree<Node>)
      reads this, nodes
      ensures t.Keys == nodes
      ensures forall n :: n in nodes ==> t[n] == Entry(n.name, n.children)
    {
      map n | n in nodes :: Entry(n.name, n.children)
    }

    constructor ()
      ensures Valid() && fresh(root) && nodes == {root}
      ensures root.name == [] && root.children == []
    {
      root := new Node([]);
      new;
      nodes, rank := {root}, map[root := 0];
    }

    /** The search for a child; from is where the name starts in the path and len its length. */
    method FindChild(node: Node, path: string, from: nat, len: nat) returns (r: Node?)
      requires Valid() && node in nodes && from + len <= |path|
      ensures r != null ==> r in nodes
      ensures Pick(View(), node.children, path[from..from + len]) == if r == null then None else Some(r)
    {
      hide Closed, Weight, Pick, Ranked, ShortNames;
      var name := path[from..from + len];
      ChildrenIn(View(), node);
      assert node.children[0..] == node.children;
      var i := 0;
      while i < |node.children|
        invariant i <= |node.children|
        invariant Pick(View(), node.children, name) == Pick(View(), node.children[i..], name)
      {
        var child := node.children[i];
        PickFrom(View(), node.children, i, name);
        if |child.name| == len {
          var diff := Compare(name, child.name, len);
          assert name[..len] == name && child.name[..len] == child.name;
          if diff == 0 {
            return child;
          }
        }
        i := i + 1;
      }
      NothingToPick(View(), node.children[i..], name);
      r := null;
    }

    /** The find_file loop. */
    method FindFile(base: Node, path: string, from: nat) returns (r: Node?)
      requires Valid() && base in nodes && from <= |path|
      ensures r != null ==> r in nodes
      ensures Walk(View(), base, path[from..]) == if r == null then None else Some(r)
    {
      hide Closed, NameEnd, Pick, Weight, ShortNames, Ranked, View;
      var node, i := base, from;
      while i < |path|
        invariant from <= i <= |path| && node in nodes
        invariant Walk(View(), base, path[from..]) == Walk(View(), node, path[i..])
      {
        var len := BreakP(path, i);
        ghost var rest := path[i..];
        assert path[i..i + len] == rest[..len];
        var child := FindChild(node, path, i, len);
        if child == null {
          return null;
        }
        node := child;
        i := i + len;
        if i < |path| && Separator(path[i]) {
          i := i + 1;
        }
        assert rest[NextName(rest)..] == path[i..];
      }
      r := node;
    }

    method ResolvePathRelative(base: Node, path: string, drive: char -> int) returns (r: Node?)
      requires Valid() && base in nodes
      ensures r != null ==> r in nodes
      ensures Resolve(View(), base, path, drive) == if r == null then None else Some(r)
    {
      if path != [] && Separator(path[0]) {
        r := FindFile(base, path, 1);
        return;
      }
      var node, i := base, 0;
      assert path[0..] == path;
      while i < |path| && Letter(path[i])
        invariant i <= |path| && node in nodes
        invariant FastIndex(View(), base, path, drive) == FastIndex(View(), node, path[i..], drive)
      {
        var letter := drive(path[i]);
        if letter < 0 || letter >= |node.children| {
          return null;
        }
        assert path[i..][1..] == path[i + 1..];
        node := node.children[letter];
        i := i + 1;
      }
      ghost var rest := path[i..];
      assert FastIndex(View(), base, path, drive) == Some((node, rest));
      if i == |path| || path[i] != ':' {
        return node;
      }
      i := i + 1;
      if i == |path| || !Separator(path[i]) {
        return node;
      }
      i := i + 1;
      assert rest[2..] == path[i..];
      r := FindFile(node, path, i);
    }

    method ResolvePath(path: string, drive: char -> int) returns (r: Node?)
      requires Valid()
      ensures r != null ==> r in nodes
      ensures Resolve(View(), root, path, drive) == if r == null then None else Some(r)
    {
      r := ResolvePathRelative(root, path, drive);
    }

    /** add_child; permitted is the answer of check_perms. */
    method AddChild(parent: Node, child: Node, permitted: bool) returns (ok: bool)
      requires Valid() && parent in nodes && child !in nodes && child.children == [] && |child.name| <= NAME_ROOM
      modifies this`nodes, this`rank, parent`children
      ensures Valid() && ok == permitted
      ensures View() == if ok then Added(old(View()), parent, child, child.name) else old(View())
      ensures nodes == if ok then old(nodes) + {child} else old(nodes)
    {
      hide Closed, Ranked;
      if !permitted {
        return false;
      }
      AllRanked(View(), rank);
      parent.children := parent.children + [child];
      nodes, rank := nodes + {child}, RankAdded(rank, parent, child);
      assert View() == Added(old(View()), parent, child, child.name);
      AddingGrows(old(View()), parent, child, child.name);
      AddedRanked(old(View()), old(rank), parent, child, child.name);
      ok := true;
    }

    /** create under a known parent; stored says whether there is storage for the node. The second result
        says that the terminator of the name was written behind the room of the name. */
    method CreateUnder(parent: Node, name: string, stored: bool, permitted: bool) returns (r: Node?, behind: bool)
      requires Valid() && parent in nodes
      modifies this`nodes, this`rank, parent`children
      ensures Valid() && (r != null <==> stored && permitted)
      ensures r == null ==> View() == old(View())
      ensures r != null ==> fresh(r) && View() == Added(old(View()), parent, r, Truncated(name))
      ensures behind <==> stored && |name| >= NAME_ROOM
    {
      if !stored {
        return null, false;
      }
      var len := |name|;
      if len > NAME_ROOM {
        len := NAME_ROOM;
      }
      behind := len >= NAME_ROOM;
      assert name[..len] == Truncated(name);
      var node := new Node(name[..len]);
      assert View() == old(View());
      var ok := AddChild(parent, node, permitted);
      r := if ok then node else null;
    }

    /** create by path; a path that leads nowhere stands for the root. Under a path that leads somewhere the node
        is found by the name exactly when resolution goes on by names behind the path, the name is findable and
        no older child compares equal. */
    method Create(path: string, name: string, drive: char -> int, stored: bool, permitted: bool)
      returns (r: Node?, behind: bool)
      requires Valid()
      modifies this`nodes, this`rank, nodes
      ensures Valid() && (r != null <==> stored && permitted)
      ensures behind <==> stored && |name| >= NAME_ROOM
      ensures r == null ==> View() == old(View())
      ensures r != null ==> fresh(r) && View() == Created(old(View()), root, Creation(path, name, r), drive)
      ensures r != null && path != [] ==>
                match Resolve(old(View()), root, path, drive)
                case None => true
                case Some(parent) => FoundExactly(old(View()), View(), root, parent, Creation(path, name, r), drive)
    {
      hide Resolve, FoundExactly, Added, Closed, Truncated, Ranked;
      ghost var t, ranks := View(), rank;
      var parent := ResolvePath(path, drive);
      ghost var found := parent;
      if parent == null {
        parent := root;
      }
      r, behind := CreateUnder(parent, name, stored, permitted);
      if r != null && found != null && path != [] {
        CreatedFoundExactly(t, ranks, root, found, Creation(path, name, r), drive);
      }
    }

    /** init: the first two nodes, both of which are then found under their paths. */
    method Init(drive: char -> int) returns (system: Node?, devices: Node?)
      requires Valid() && nodes == {root} && root.children == []
      modifies this`nodes, this`rank, root
      ensures Valid() && system != null && devices != null
      ensures Resolve(View(), root, "/SYSTEM", drive) == Some(system)
      ensures Resolve(View(), root, "/SYSTEM/DEVICES", drive) == Some(devices)
      ensures Resolve(View(), root, "\\SYSTEM\\DEVICES", drive) == Some(devices)
      ensures Resolve(View(), root, ".SYSTEM.DEVICES", drive) == Some(devices)
    {
      hide Resolve, Closed;
      ghost var t0, rank0 := View(), rank;
      RootPath(t0, root, drive);
      var behind;
      system, behind := Create("/", "SYSTEM", drive, true, true);
      ghost var t1, rank1 := View(), rank;
      FirstNode(t0, rank0, root, system, drive);
      devices, behind := Create("/SYSTEM", "DEVICES", drive, true, true);
      SecondNode(t1, rank1, root, system, devices, drive);
      OtherSeparators();
      SlashesForAll(View(), root, "\\SYSTEM\\DEVICES", drive);
      SlashesForAll(View(), root, ".SYSTEM.DEVICES", drive);
    }
  }

  lemma OtherSeparators()
    ensures Slashed("\\SYSTEM\\DEVICES") == "/SYSTEM/DEVICES" && Slashed(".SYSTEM.DEVICES") == "/SYSTEM/DEVICES"
  {
    hide Slashed;
    var p, q := Slashed("\\SYSTEM\\DEVICES"), Slashed(".SYSTEM.DEVICES");
    assert forall i :: 0 <= i < 15 ==> p[i] == "/SYSTEM/DEVICES"[i] && q[i] == "/SYSTEM/DEVICES"[i];
  }

  lemma RootPath<N>(t: Tree<N>, root: N, drive: char -> int)
    requires Closed(t) && root in t
    ensures Resolve(t, root, "/", drive) == Some(root)
  {
    assert "/"[1..] == [];
  }

  lemma FirstNode<N>(t: Tree<N>, rank: map<N, nat>, root: N, system: N, drive: char -> int)
    requires Closed(t) && Ranked(t, rank) && root in t && system !in t && t[root].children == []
    ensures var t' := Added(t, root, system, "SYSTEM");
            Closed(t') && Resolve(t', root, "/SYSTEM", drive) == Some(system)
  {
    hide Resolve, Closed, NameEnd, Walk, Weight, Ranked;
    RootPath(t, root, drive);
    assert Join("/", "SYSTEM", '/') == "/SYSTEM";
    assert t[root].children == [] && Truncated("SYSTEM") == "SYSTEM";
    NewNodeFoundExactly(t, rank, root, "/", '/', root, system, "SYSTEM", drive);
  }

  lemma SecondNode<N>(t: Tree<N>, rank: map<N, nat>, root: N, system: N, devices: N, drive: char -> int)
    requires Closed(t) && Ranked(t, rank) && root in t && system in t && devices !in t && t[system].children == []
    requires Resolve(t, root, "/SYSTEM", drive) == Some(system)
    ensures var t' := Added(t, system, devices, "DEVICES");
            Closed(t') && Resolve(t', root, "/SYSTEM", drive) == Some(system)
            && Resolve(t', root, "/SYSTEM/DEVICES", drive) == Some(devices)
  {
    hide Resolve, Closed, NameEnd, Walk, Weight, Ranked;
    assert Join("/SYSTEM", "DEVICES", '/') == "/SYSTEM/DEVICES";
    AddingGrows(t, system, devices, "DEVICES");
    GrowthKeepsPaths(t, Added(t, system, devices, "DEVICES"), root, "/SYSTEM", drive);
    assert Truncated("DEVICES") == "DEVICES";
    NewNodeFoundExactly(t, rank, root, "/SYSTEM", '/', system, devices, "DEVICES", drive);
  }
}
