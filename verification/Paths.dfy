// Path resolution and printing (junction/fs/core.cc, junction/fs/fs.h,
// junction/base/string.h) over a directory tree that does not change.
module Paths {
  import opened Common

  // --- split ---

  function IndexOf(text: string, sep: char, from: nat): (i: nat)
    requires from <= |text|
    ensures from <= i <= |text| && (i < |text| ==> text[i] == sep)
    ensures forall j | from <= j < i :: text[j] != sep
    decreases |text| - from
  {
    if from == |text| || text[from] == sep then from else IndexOf(text, sep, from + 1)
  }

  // Those bounds determine it.
  lemma IndexIs(text: string, sep: char, from: nat, i: nat)
    requires from <= i <= |text| && (i < |text| ==> text[i] == sep) && forall j | from <= j < i :: text[j] != sep
    ensures IndexOf(text, sep, from) == i
  {
  }

  function Split(text: string, sep: char): (r: seq<string>)
    ensures r != []
    decreases |text|
  {
    var i := IndexOf(text, sep, 0);
    if i == |text| then [text] else [text[..i]] + Split(text[i + 1..], sep)
  }

  function Join(tokens: seq<string>, sep: char): string
    requires tokens != []
  {
    if |tokens| == 1 then tokens[0] else tokens[0] + [sep] + Join(tokens[1..], sep)
  }

  ghost predicate NoneHas(tokens: seq<string>, sep: char) {
    forall i | 0 <= i < |tokens| :: sep !in tokens[i]
  }

  // Splitting is the inverse of joining on tokens without the separator.
  lemma {:induction false} JoinSplit(text: string, sep: char)
    ensures Join(Split(text, sep), sep) == text && NoneHas(Split(text, sep), sep)
    decreases |text|
  {
    var i := IndexOf(text, sep, 0);
    if i < |text| {
      JoinSplit(text[i + 1..], sep);
      var rest := Split(text[i + 1..], sep);
      assert ([text[..i]] + rest)[1..] == rest;
      assert text == text[..i] + [sep] + text[i + 1..];
    }
  }

  lemma {:induction false} SplitJoin(tokens: seq<string>, sep: char)
    requires tokens != [] && NoneHas(tokens, sep)
    ensures Split(Join(tokens, sep), sep) == tokens
  {
    hide IndexOf;
    var text := Join(tokens, sep);
    var n := |tokens[0]|;
    if |tokens| == 1 {
      IndexIs(text, sep, 0, n);
    } else {
      var rest := Join(tokens[1..], sep);
      assert text == tokens[0] + [sep] + rest && text[n] == sep;
      IndexIs(text, sep, 0, n);
      assert text[..n] == tokens[0] && text[n + 1..] == rest;
      SplitJoin(tokens[1..], sep);
    }
  }

  lemma {:induction false} JoinMore(ts: seq<string>, a: string, b: string, sep: char)
    ensures Join(ts + [a, b], sep) == Join(ts + [a + [sep] + b], sep)
  {
    if ts == [] {
      assert [a, b][1..] == [b];
      assert ts + [a, b] == [a, b] && ts + [a + [sep] + b] == [a + [sep] + b];
    } else {
      JoinMore(ts[1..], a, b, sep);
      assert (ts + [a, b])[1..] == ts[1..] + [a, b];
      assert (ts + [a + [sep] + b])[1..] == ts[1..] + [a + [sep] + b];
    }
  }

  lemma NextToken(text: string, sep: char, start: nat, tokens: seq<string>)
    requires start <= |text| && IndexOf(text, sep, start) < |text|
    ensures var end := IndexOf(text, sep, start);
            && Split(text[start..], sep) == [text[start..end]] + Split(text[end + 1..], sep)
            && Join(tokens + [text[start..]], sep) == Join(tokens + [text[start..end]] + [text[end + 1..]], sep)
  {
    hide Split, Join, IndexOf;
    var end := IndexOf(text, sep, start);
    var rest := text[start..];
    SplitHead(rest, sep, end - start);
    assert rest[..end - start] == text[start..end] && rest[end - start + 1..] == text[end + 1..];
    JoinMore(tokens, text[start..end], text[end + 1..], sep);
    assert rest == text[start..end] + [sep] + text[end + 1..];
    assert tokens + [text[start..end]] + [text[end + 1..]] == tokens + [text[start..end], text[end + 1..]];
  }

  lemma SplitHead(text: string, sep: char, i: nat)
    requires i < |text| && text[i] == sep && forall j | 0 <= j < i :: text[j] != sep
    ensures Split(text, sep) == [text[..i]] + Split(text[i + 1..], sep)
  {
    IndexIs(text, sep, 0, i);
  }

  lemma LastToken(text: string, sep: char, start: nat)
    requires start <= |text| && IndexOf(text, sep, start) == |text|
    ensures Split(text[start..], sep) == [text[start..]]
  {
    IndexIs(text[start..], sep, 0, |text| - start);
  }

  ghost predicate SplitSoFar(text: string, sep: char, tokens: seq<string>, start: nat) {
    && start <= |text| && NoneHas(tokens, sep)
    && tokens + Split(text[start..], sep) == Split(text, sep)
    && Join(tokens + [text[start..]], sep) == text
  }

  lemma SplitBegins(text: string, sep: char)
    ensures SplitSoFar(text, sep, [], 0)
  {
    assert text[0..] == text && [] + [text] == [text];
    assert [] + Split(text, sep) == Split(text, sep);
  }

  lemma SplitAdvances(text: string, sep: char, tokens: seq<string>, start: nat)
    requires SplitSoFar(text, sep, tokens, start) && IndexOf(text, sep, start) < |text|
    ensures var end := IndexOf(text, sep, start);
            SplitSoFar(text, sep, tokens + [text[start..end]], end + 1)
  {
    hide Split, Join;
    var end := IndexOf(text, sep, start);
    NextToken(text, sep, start, tokens);
    var rest := Split(text[end + 1..], sep);
    assert tokens + ([text[start..end]] + rest) == tokens + [text[start..end]] + rest;
    TokenClean(text, sep, start, end);
  }

  lemma TokenClean(text: string, sep: char, start: nat, end: nat)
    requires start <= end <= |text| && forall j | start <= j < end :: text[j] != sep
    ensures sep !in text[start..end]
  {
  }

  // The loop: with no limit it is Split; with one it stops early and leaves
  // the rest unsplit, so joining still gives the text back.
  method SplitText(text: string, sep: char, max: Option<nat>) returns (tokens: seq<string>)
    ensures tokens != [] && Join(tokens, sep) == text
    ensures max == None ==> tokens == Split(text, sep)
    ensures max.Some? ==> |tokens| <= Max(max.value, 1) + 1
    ensures NoneHas(tokens[..|tokens| - 1], sep)
  {
    hide SplitSoFar, Split, Join;
    tokens := [];
    var start := 0;
    var end := IndexOf(text, sep, 0);
    SplitBegins(text, sep);
    while end < |text|
      invariant start <= end <= |text| && end == IndexOf(text, sep, start)
      invariant SplitSoFar(text, sep, tokens, start)
      invariant max.Some? ==> |tokens| == 0 || |tokens| < max.value
      decreases |text| - start
    {
      SplitAdvances(text, sep, tokens, start);
      tokens := tokens + [text[start..end]];
      start := end + 1;
      if max.Some? && |tokens| >= max.value {
        break;
      }
      end := IndexOf(text, sep, start);
    }
    SplitEnds(text, sep, tokens, start);
    tokens := tokens + [text[start..]];
  }

  lemma SplitEnds(text: string, sep: char, tokens: seq<string>, start: nat)
    requires SplitSoFar(text, sep, tokens, start)
    ensures Join(tokens + [text[start..]], sep) == text && NoneHas(tokens, sep)
    ensures IndexOf(text, sep, start) == |text| ==> tokens + [text[start..]] == Split(text, sep)
  {
    if IndexOf(text, sep, start) == |text| { LastToken(text, sep, start); }
  }

  // --- The tree ---

  type Id = nat

  datatype Node = Dir(children: map<string, Id>) | Link(target: string) | Other

  // stale: the inode has no links left. parent: None once the entry is
  // unlinked. level: how far below the topmost entry it is.
  datatype Entry = Entry(name: string, parent: Option<Id>, node: Node, stale: bool, level: nat)

  type Tree = map<Id, Entry>

  // g, the topmost entry, is its own parent; every other linked entry is the
  // child of its name of its parent.
  ghost predicate TreeOk(t: Tree, g: Id) {
    && g in t && t[g].parent == Some(g) && t[g].node.Dir?
    && (forall x | x in t && x != g && t[x].parent.Some? :: LinkedOk(t, x))
    && (forall d, n | d in t && t[d].node.Dir? && n in t[d].node.children ::
          && t[d].node.children[n] in t && t[d].node.children[n] != g
          && t[t[d].node.children[n]].parent == Some(d) && t[t[d].node.children[n]].name == n)
  }

  ghost predicate LinkedOk(t: Tree, x: Id)
    requires x in t && t[x].parent.Some?
  {
    var p := t[x].parent.value;
    && p in t && t[p].node.Dir? && t[x].level == t[p].level + 1
    && t[x].name in t[p].node.children && t[p].node.children[t[x].name] == x
  }

  // In the subtree of root.
  ghost predicate Under(t: Tree, g: Id, root: Id, x: Id)
    requires TreeOk(t, g) && x in t
    decreases t[x].level
  {
    || x == root
    || (x != g && t[x].parent.Some? && LinkedOk(t, x) && Under(t, g, root, t[x].parent.value))
  }

  // A process's root directory within the tree.
  ghost predicate RootOk(t: Tree, g: Id, root: Id) {
    TreeOk(t, g) && root in t && t[root].node.Dir?
  }

  // Climbing from x meets the root or stays at the topmost entry.
  ghost predicate Anchored(t: Tree, g: Id, root: Id, x: Id)
    requires TreeOk(t, g) && x in t
  {
    Under(t, g, root, x) || Under(t, g, g, x)
  }

  // --- Walking ---

  // NullParent: ".." at an entry that was unlinked reads through a null pointer.
  datatype Failure = Failed(errno: Errno) | NullParent

  predicate IsAbsolute(path: string) {
    path != "" && path[0] == '/'
  }

  ghost predicate NothingStale(t: Tree) {
    forall x | x in t :: !t[x].stale
  }

  // The entry a path leads to from any directory; depth bounds the nesting of
  // links. A walk that starts inside the root's subtree ends inside it.
  ghost function Walk(t: Tree, g: Id, root: Id, cur: Id, path: seq<string>, chase: bool, depth: nat)
    : (r: Result<Id, Failure>)
    requires RootOk(t, g, root) && cur in t && t[cur].node.Dir?
    ensures r.Ok? ==> r.value in t && !t[r.value].stale
    ensures r.Ok? && Under(t, g, root, cur) ==> Under(t, g, root, r.value)
    ensures Anchored(t, g, root, cur) ==> r != Err(NullParent) && (r.Ok? ==> Anchored(t, g, root, r.value))
    ensures NothingStale(t) ==> r != Err(Failed(ESTALE))
    decreases depth, |path|
  {
    if depth == 0 then Err(Failed(ELOOP))
    else if path == [] then (if t[cur].stale then Err(Failed(ESTALE)) else Ok(cur))
    else if path[0] == "" || path[0] == "." then Walk(t, g, root, cur, path[1..], chase, depth)
    else if path[0] == ".." then
      if cur == root then Walk(t, g, root, cur, path[1..], chase, depth)
      else if t[cur].parent.None? then Err(NullParent)
      else
        assert cur == g || LinkedOk(t, cur);
        Walk(t, g, root, t[cur].parent.value, path[1..], chase, depth)
    else if path[0] !in t[cur].node.children then Err(Failed(ENOENT))
    else
      var last := |path| == 1;
      var r := Step(t, g, root, cur, path[0], chase || !last, depth);
      if r.Err? || last then r
      else if !t[r.value].node.Dir? then Err(Failed(ENOTDIR))
      else Walk(t, g, root, r.value, path[1..], chase, depth)
  }

  // One name that is there: the entry, or what it links to if links are chased.
  ghost function Step(t: Tree, g: Id, root: Id, cur: Id, name: string, chase: bool, depth: nat)
    : (r: Result<Id, Failure>)
    requires RootOk(t, g, root) && cur in t && t[cur].node.Dir?
    requires name in t[cur].node.children && depth > 0
    ensures r.Ok? ==> r.value in t && !t[r.value].stale
    ensures r.Ok? && Under(t, g, root, cur) ==> Under(t, g, root, r.value)
    ensures Anchored(t, g, root, cur) ==> r != Err(NullParent) && (r.Ok? ==> Anchored(t, g, root, r.value))
    ensures NothingStale(t) ==> r != Err(Failed(ESTALE))
    decreases depth, 0
  {
    var child := t[cur].node.children[name];
    assert LinkedOk(t, child);
    if t[child].stale then Err(Failed(ESTALE))
    else if t[child].node.Link? && chase then
      var target := t[child].node.target;
      var r := Walk(t, g, root, if IsAbsolute(target) then root else cur, Split(target, '/'), true, depth - 1);
      if r.Ok? && t[r.value].stale then Err(Failed(ESTALE)) else r
    else Ok(child)
  }

  method WalkPath(t: Tree, ghost g: Id, root: Id, dir: Id, path: seq<string>, chase: bool, depth: nat)
    returns (r: Result<Id, Failure>)
    requires RootOk(t, g, root) && dir in t && t[dir].node.Dir?
    ensures r == Walk(t, g, root, dir, path, chase, depth)
    decreases depth
  {
    if depth == 0 {
      return Err(Failed(ELOOP));
    }
    var cur := dir;
    var i := 0;
    assert path[0..] == path;
    while i < |path|
      invariant 0 <= i <= |path| && cur in t && t[cur].node.Dir?
      invariant Walk(t, g, root, cur, path[i..], chase, depth) == Walk(t, g, root, dir, path, chase, depth)
    {
      var v := path[i];
      ghost var rest := path[i..];
      assert rest[1..] == path[i + 1..] && rest[0] == v;
      i := i + 1;
      if v == "" || v == "." {
        continue;
      }
      if v == ".." {
        if cur != root {
          if t[cur].parent.None? {
            return Err(NullParent);
          }
          assert cur == g || LinkedOk(t, cur);
          cur := t[cur].parent.value;
        }
        continue;
      }
      if v !in t[cur].node.children {
        return Err(Failed(ENOENT));
      }
      var last := i == |path|;
      var next := FollowOne(t, g, root, cur, v, chase || !last, depth);
      if next.Err? || last {
        return next;
      }
      if !t[next.value].node.Dir? {
        return Err(Failed(ENOTDIR));
      }
      cur := next.value;
    }
    assert path[i..] == [];
    return if t[cur].stale then Err(Failed(ESTALE)) else Ok(cur);
  }

  // The body of the loop for an ordinary name.
  method FollowOne(t: Tree, ghost g: Id, root: Id, cur: Id, v: string, chase: bool, depth: nat)
    returns (r: Result<Id, Failure>)
    requires RootOk(t, g, root) && cur in t && t[cur].node.Dir?
    requires v in t[cur].node.children && depth > 0
    ensures r == Step(t, g, root, cur, v, chase, depth)
    decreases depth, 0
  {
    var child := t[cur].node.children[v];
    if t[child].stale {
      return Err(Failed(ESTALE));
    }
    if t[child].node.Link? && chase {
      var target := t[child].node.target;
      var parts := SplitText(target, '/', None);
      r := WalkPath(t, g, root, if IsAbsolute(target) then root else cur, parts, true, depth - 1);
      if r.Ok? && t[r.value].stale {
        return Err(Failed(ESTALE));
      }
      return;
    }
    return Ok(child);
  }

  // Walking a path and then another one.
  lemma {:induction false} WalkAppend(t: Tree, g: Id, root: Id, cur: Id, a: seq<string>, b: seq<string>, chase: bool, depth: nat)
    requires RootOk(t, g, root) && cur in t && t[cur].node.Dir?
    requires NothingStale(t) && depth > 0 && b != []
    ensures var r := Walk(t, g, root, cur, a, true, depth);
            Walk(t, g, root, cur, a + b, chase, depth) ==
            if r.Err? then r
            else if !t[r.value].node.Dir? then Err(Failed(ENOTDIR))
            else Walk(t, g, root, r.value, b, chase, depth)
    decreases |a|
  {
    if a == [] {
      assert a + b == b;
    } else {
      var rest := a[1..];
      assert (a + b)[0] == a[0] && (a + b)[1..] == rest + b;
      if a[0] == "" || a[0] == "." {
        WalkAppend(t, g, root, cur, rest, b, chase, depth);
      } else if a[0] == ".." {
        if cur == root {
          WalkAppend(t, g, root, cur, rest, b, chase, depth);
        } else if t[cur].parent.Some? {
          assert cur == g || LinkedOk(t, cur);
          WalkAppend(t, g, root, t[cur].parent.value, rest, b, chase, depth);
        }
      } else if a[0] in t[cur].node.children {
        var r := Step(t, g, root, cur, a[0], true, depth);
        if rest == [] {
          assert rest + b == b;
        } else if r.Ok? && t[r.value].node.Dir? {
          WalkAppend(t, g, root, r.value, rest, b, chase, depth);
        }
      }
    }
  }

  // --- Resolution by rules ---

  // Which rule applies to the first component, and the derivations it uses.
  datatype Derivation =
    | Done                                    // nothing left
    | Skip(rest: Derivation)                  // "" or "."
    | Up(rest: Derivation)                    // ".."
    | NoParent                                // ".." at an unlinked entry
    | Missing                                 // no such name
    | Stale                                   // an entry whose inode is gone
    | Last(child: Id)                         // the last name
    | Into(child: Id, rest: Derivation)       // a directory on the way
    | NotDir(child: Id)                       // anything else on the way
    // A link, which leads to mid.
    | Via(child: Id, mid: Result<Id, Failure>, link: Derivation, rest: Derivation)

  predicate Named(path: seq<string>) {
    path != [] && path[0] != "" && path[0] != "." && path[0] != ".."
  }

  // The first component names a live child.
  ghost predicate Live(t: Tree, cur: Id, path: seq<string>, child: Id) {
    && cur in t && t[cur].node.Dir? && Named(path) && path[0] in t[cur].node.children
    && child == t[cur].node.children[path[0]] && child in t && !t[child].stale
  }

  function LinkStart(root: Id, cur: Id, target: string): Id {
    if target != "" && target[0] == '/' then root else cur
  }

  // path_resolution(7), rule by rule. A link leads on from the directory that
  // holds it, or from the root if its target is absolute.
  ghost predicate Resolves(t: Tree, root: Id, cur: Id, path: seq<string>, chase: bool, r: Result<Id, Failure>, d: Derivation)
    decreases d
  {
    && cur in t && t[cur].node.Dir?
    && match d
       case Done => path == [] && r == if t[cur].stale then Err(Failed(ESTALE)) else Ok(cur)
       case Skip(rest) => path != [] && path[0] in {"", "."} && Resolves(t, root, cur, path[1..], chase, r, rest)
       case Up(rest) =>
         && path != [] && path[0] == ".." && (cur == root || t[cur].parent.Some?)
         && Resolves(t, root, if cur == root then root else t[cur].parent.value, path[1..], chase, r, rest)
       case NoParent => path != [] && path[0] == ".." && cur != root && t[cur].parent.None? && r == Err(NullParent)
       case Missing => Named(path) && path[0] !in t[cur].node.children && r == Err(Failed(ENOENT))
       case Stale =>
         && Named(path) && path[0] in t[cur].node.children && t[cur].node.children[path[0]] in t
         && t[t[cur].node.children[path[0]]].stale && r == Err(Failed(ESTALE))
       case Last(child) => |path| == 1 && Live(t, cur, path, child) && !(t[child].node.Link? && chase) && r == Ok(child)
       case Into(child, rest) =>
         |path| > 1 && Live(t, cur, path, child) && t[child].node.Dir? && Resolves(t, root, child, path[1..], chase, r, rest)
       case NotDir(child) =>
         |path| > 1 && Live(t, cur, path, child) && t[child].node.Other? && r == Err(Failed(ENOTDIR))
       case Via(child, mid, link, rest) =>
         && Live(t, cur, path, child) && t[child].node.Link? && (chase || |path| > 1)
         && Resolves(t, root, LinkStart(root, cur, t[child].node.target), Split(t[child].node.target, '/'), true, mid, link)
         && (if mid.Err? || |path| == 1 then r == mid && rest == Done
             else if mid.value !in t || !t[mid.value].node.Dir? then r == Err(Failed(ENOTDIR)) && rest == Done
             else Resolves(t, root, mid.value, path[1..], chase, r, rest))
  }

  function Nesting(d: Derivation): nat {
    match d
    case Skip(rest) => Nesting(rest)
    case Up(rest) => Nesting(rest)
    case Into(_, rest) => Nesting(rest)
    case Via(_, _, link, rest) => Max(1 + Nesting(link), Nesting(rest))
    case _ => 0
  }

  lemma {:induction false} WalkDerives(t: Tree, g: Id, root: Id, cur: Id, path: seq<string>, chase: bool, depth: nat)
    returns (d: Derivation)
    requires RootOk(t, g, root) && cur in t && t[cur].node.Dir?
    requires Walk(t, g, root, cur, path, chase, depth) != Err(Failed(ELOOP))
    ensures Resolves(t, root, cur, path, chase, Walk(t, g, root, cur, path, chase, depth), d) && Nesting(d) < depth
    decreases depth, |path|
  {
    if path == [] {
      d := Done;
    } else if path[0] == "" || path[0] == "." {
      var rest := WalkDerives(t, g, root, cur, path[1..], chase, depth);
      d := Skip(rest);
    } else if path[0] == ".." {
      if cur != root && t[cur].parent.None? {
        d := NoParent;
      } else {
        assert cur == root || cur == g || LinkedOk(t, cur);
        var rest := WalkDerives(t, g, root, if cur == root then root else t[cur].parent.value, path[1..], chase, depth);
        d := Up(rest);
      }
    } else if path[0] !in t[cur].node.children {
      d := Missing;
    } else {
      d := NameDerives(t, g, root, cur, path, chase, depth);
    }
  }

  lemma {:induction false} NameDerives(t: Tree, g: Id, root: Id, cur: Id, path: seq<string>, chase: bool, depth: nat)
    returns (d: Derivation)
    requires RootOk(t, g, root) && cur in t && t[cur].node.Dir? && Named(path) && path[0] in t[cur].node.children && depth > 0
    requires Walk(t, g, root, cur, path, chase, depth) != Err(Failed(ELOOP))
    ensures Resolves(t, root, cur, path, chase, Walk(t, g, root, cur, path, chase, depth), d) && Nesting(d) < depth
    decreases depth, |path|, 1
  {
    hide Walk, Split, Under;
    var child := t[cur].node.children[path[0]];
    WalkName(t, g, root, cur, path, chase, depth);
    if t[child].stale {
      d := Stale;
    } else if t[child].node.Link? && (chase || |path| > 1) {
      d := ViaDerives(t, g, root, cur, path, chase, depth, child);
    } else if |path| == 1 {
      d := Last(child);
    } else if t[child].node.Dir? {
      var rest := WalkDerives(t, g, root, child, path[1..], chase, depth);
      d := Into(child, rest);
    } else {
      d := NotDir(child);
    }
  }

  lemma {:induction false} ViaDerives(t: Tree, g: Id, root: Id, cur: Id, path: seq<string>, chase: bool, depth: nat, child: Id)
    returns (d: Derivation)
    requires RootOk(t, g, root) && Live(t, cur, path, child) && t[child].node.Link? && (chase || |path| > 1) && depth > 0
    requires Walk(t, g, root, cur, path, chase, depth) != Err(Failed(ELOOP))
    ensures Resolves(t, root, cur, path, chase, Walk(t, g, root, cur, path, chase, depth), d) && Nesting(d) < depth
    decreases depth, |path|, 0
  {
    hide Walk, Split, Under, Resolves;
    WalkName(t, g, root, cur, path, chase, depth);
    var start, parts := LinkStart(root, cur, t[child].node.target), Split(t[child].node.target, '/');
    var mid := Walk(t, g, root, start, parts, true, depth - 1);
    var link := WalkDerives(t, g, root, start, parts, true, depth - 1);
    if mid.Err? || |path| == 1 || !t[mid.value].node.Dir? {
      d := Via(child, mid, link, Done);
      ViaRule(t, root, cur, path, chase, Walk(t, g, root, cur, path, chase, depth), d);
    } else {
      var rest := WalkDerives(t, g, root, mid.value, path[1..], chase, depth);
      d := Via(child, mid, link, rest);
      ViaRule(t, root, cur, path, chase, Walk(t, g, root, cur, path, chase, depth), d);
    }
  }

  lemma ViaRule(t: Tree, root: Id, cur: Id, path: seq<string>, chase: bool, r: Result<Id, Failure>, d: Derivation)
    requires d.Via? && Live(t, cur, path, d.child) && t[d.child].node.Link? && (chase || |path| > 1)
    requires var target := t[d.child].node.target;
             Resolves(t, root, LinkStart(root, cur, target), Split(target, '/'), true, d.mid, d.link)
    requires if d.mid.Err? || |path| == 1 then r == d.mid && d.rest == Done
             else if d.mid.value !in t || !t[d.mid.value].node.Dir? then r == Err(Failed(ENOTDIR)) && d.rest == Done
             else Resolves(t, root, d.mid.value, path[1..], chase, r, d.rest)
    ensures Resolves(t, root, cur, path, chase, r, d)
  {
  }

  // The walk at a name that is there.
  lemma WalkName(t: Tree, g: Id, root: Id, cur: Id, path: seq<string>, chase: bool, depth: nat)
    requires RootOk(t, g, root) && cur in t && t[cur].node.Dir? && Named(path) && path[0] in t[cur].node.children
    requires depth > 0
    ensures var child := t[cur].node.children[path[0]];
            child in t &&
            var follow := t[child].node.Link? && (chase || |path| > 1);
            var mid := if t[child].stale then Err(Failed(ESTALE))
                       else if follow then
                         Walk(t, g, root, LinkStart(root, cur, t[child].node.target), Split(t[child].node.target, '/'),
                              true, depth - 1)
                       else Ok(child);
            Walk(t, g, root, cur, path, chase, depth) ==
            if mid.Err? || |path| == 1 then mid
            else if !t[mid.value].node.Dir? then Err(Failed(ENOTDIR))
            else Walk(t, g, root, mid.value, path[1..], chase, depth)
  {
  }

  lemma {:induction false} DerivedWalk(t: Tree, g: Id, root: Id, cur: Id, path: seq<string>, chase: bool, r: Result<Id, Failure>,
                                       d: Derivation, depth: nat)
    requires RootOk(t, g, root) && Resolves(t, root, cur, path, chase, r, d) && Nesting(d) < depth
    ensures Walk(t, g, root, cur, path, chase, depth) == r && r != Err(Failed(ELOOP))
    decreases d
  {
    match d
    case Skip(rest) => DerivedWalk(t, g, root, cur, path[1..], chase, r, rest, depth);
    case Up(rest) =>
      DerivedWalk(t, g, root, if cur == root then root else t[cur].parent.value, path[1..], chase, r, rest, depth);
    case Into(child, rest) =>
      DerivedWalk(t, g, root, child, path[1..], chase, r, rest, depth);
      WalkName(t, g, root, cur, path, chase, depth);
    case Via(_, _, _, _) => DerivedVia(t, g, root, cur, path, chase, r, d, depth);
    case _ =>
  }

  lemma {:induction false} DerivedVia(t: Tree, g: Id, root: Id, cur: Id, path: seq<string>, chase: bool, r: Result<Id, Failure>,
                                      d: Derivation, depth: nat)
    requires RootOk(t, g, root) && Resolves(t, root, cur, path, chase, r, d) && Nesting(d) < depth && d.Via?
    ensures Walk(t, g, root, cur, path, chase, depth) == r && r != Err(Failed(ELOOP))
    decreases d, 0
  {
    hide Walk, Split;
    var target := t[d.child].node.target;
    DerivedWalk(t, g, root, LinkStart(root, cur, target), Split(target, '/'), true, d.mid, d.link, depth - 1);
    if d.mid.Ok? && |path| > 1 && t[d.mid.value].node.Dir? {
      DerivedWalk(t, g, root, d.mid.value, path[1..], chase, r, d.rest, depth);
    }
    WalkName(t, g, root, cur, path, chase, depth);
  }

  // The walk finds what the rules derive with fewer than depth nested links,
  // error or entry, and answers ELOOP exactly when they derive nothing so.
  lemma WalkIsResolution(t: Tree, g: Id, root: Id, cur: Id, path: seq<string>, chase: bool, depth: nat, r: Result<Id, Failure>)
    requires RootOk(t, g, root) && cur in t && t[cur].node.Dir?
    ensures (exists d :: Resolves(t, root, cur, path, chase, r, d) && Nesting(d) < depth)
            <==> Walk(t, g, root, cur, path, chase, depth) == r && r != Err(Failed(ELOOP))
    ensures Walk(t, g, root, cur, path, chase, depth) == Err(Failed(ELOOP)) <==>
            forall q, d | Resolves(t, root, cur, path, chase, q, d) :: Nesting(d) >= depth
  {
    hide Walk, Resolves;
    var w := Walk(t, g, root, cur, path, chase, depth);
    if w != Err(Failed(ELOOP)) {
      var d := WalkDerives(t, g, root, cur, path, chase, depth);
      assert Resolves(t, root, cur, path, chase, w, d) && Nesting(d) < depth;
    }
    forall q, d | Resolves(t, root, cur, path, chase, q, d) && Nesting(d) < depth ensures w == q && q != Err(Failed(ELOOP)) {
      DerivedWalk(t, g, root, cur, path, chase, q, d, depth);
    }
  }

  lemma MoreDepth(t: Tree, g: Id, root: Id, cur: Id, path: seq<string>, chase: bool, depth: nat)
    requires RootOk(t, g, root) && cur in t && t[cur].node.Dir?
    requires Walk(t, g, root, cur, path, chase, depth) != Err(Failed(ELOOP))
    ensures Walk(t, g, root, cur, path, chase, depth + 1) == Walk(t, g, root, cur, path, chase, depth)
  {
    hide Walk, Resolves;
    var d := WalkDerives(t, g, root, cur, path, chase, depth);
    DerivedWalk(t, g, root, cur, path, chase, Walk(t, g, root, cur, path, chase, depth), d, depth + 1);
  }

  // Following a link is putting its target in place of its name, starting from
  // the directory that holds it or from the root; only the nesting differs.
  lemma LinkIsItsTarget(t: Tree, g: Id, root: Id, cur: Id, name: string, rest: seq<string>, chase: bool, depth: nat, x: Id)
    requires RootOk(t, g, root) && cur in t && t[cur].node.Dir? && NothingStale(t) && depth > 0
    requires Named([name]) && name in t[cur].node.children && t[t[cur].node.children[name]].node.Link?
    requires chase || rest != []
    ensures var target := t[t[cur].node.children[name]].node.target;
            var start := LinkStart(root, cur, target);
            && (Walk(t, g, root, cur, [name] + rest, chase, depth) == Ok(x) ==>
                  Walk(t, g, root, start, Split(target, '/') + rest, chase, depth) == Ok(x))
            && (Walk(t, g, root, start, Split(target, '/') + rest, chase, depth) == Ok(x) ==>
                  Walk(t, g, root, cur, [name] + rest, chase, depth + 1) == Ok(x))
  {
    hide Resolves, Split, Walk;
    var target := t[t[cur].node.children[name]].node.target;
    var start := LinkStart(root, cur, target);
    var parts, path := Split(target, '/'), [name] + rest;
    assert path[1..] == rest && path[0] == name;
    WalkName(t, g, root, cur, path, chase, depth);
    WalkName(t, g, root, cur, path, chase, depth + 1);
    if rest == [] { assert parts + rest == parts; } else { WalkAppend(t, g, root, start, parts, rest, chase, depth); }
    if Walk(t, g, root, cur, path, chase, depth) == Ok(x) {
      MoreDepth(t, g, root, start, parts, true, depth - 1);
    }
    if rest != [] && Walk(t, g, root, start, parts + rest, chase, depth) == Ok(x) {
      MoreDepth(t, g, root, Walk(t, g, root, start, parts, true, depth).value, rest, chase, depth);
    }
  }

  // --- Looking up a path ---

  const MAX_LINKS := 8

  // Trailing "" and "." are dropped; dropping any asks for a directory.
  function Trim(path: seq<string>): seq<string> {
    if path != [] && (path[|path| - 1] == "" || path[|path| - 1] == ".") then Trim(path[..|path| - 1]) else path
  }

  // What is kept is a prefix that ends in another component.
  lemma {:induction false} TrimLast(path: seq<string>)
    ensures var p := Trim(path);
            && p <= path && (p != [] ==> p[|p| - 1] != "" && p[|p| - 1] != ".")
            && forall i | |p| <= i < |path| :: path[i] == "" || path[i] == "."
  {
    if path != [] && (path[|path| - 1] == "" || path[|path| - 1] == ".") { TrimLast(path[..|path| - 1]); }
  }

  method SplitPath(path: string) returns (spath: seq<string>, mustBeDir: bool)
    ensures spath == Trim(Split(path, '/')) && (mustBeDir <==> spath != Split(path, '/'))
    ensures spath <= Split(path, '/') && (spath != [] ==> spath[|spath| - 1] != "" && spath[|spath| - 1] != ".")
    ensures forall i | |spath| <= i < |Split(path, '/')| :: Split(path, '/')[i] == "" || Split(path, '/')[i] == "."
  {
    TrimLast(Split(path, '/'));
    var all := SplitText(path, '/', None);
    var n := |all|;
    assert all[..n] == all;
    while n > 0 && (all[n - 1] == "" || all[n - 1] == ".")
      invariant 0 <= n <= |all| && Trim(all[..n]) == Trim(all)
    {
      assert all[..n][..n - 1] == all[..n - 1];
      n := n - 1;
    }
    return all[..n], n != |all|;
  }

  predicate PathIsValid(path: string) {
    '\0' !in path
  }

  ghost function Lookup(t: Tree, g: Id, root: Id, cwd: Id, path: string, chase: bool): (r: Result<Id, Failure>)
    requires RootOk(t, g, root) && cwd in t && t[cwd].node.Dir?
    ensures r.Ok? ==> r.value in t && (IsAbsolute(path) || Under(t, g, root, cwd) ==> Under(t, g, root, r.value))
  {
    if !PathIsValid(path) then Err(Failed(EINVAL))
    else
      var spath := Trim(Split(path, '/'));
      Walk(t, g, root, if IsAbsolute(path) then root else cwd, spath, chase || spath != Split(path, '/'), MAX_LINKS)
  }

  method LookupDirEntry(t: Tree, ghost g: Id, root: Id, cwd: Id, path: string, chase: bool)
    returns (r: Result<Id, Failure>)
    requires RootOk(t, g, root) && cwd in t && t[cwd].node.Dir?
    ensures r == Lookup(t, g, root, cwd, path, chase)
  {
    if !PathIsValid(path) {
      return Err(Failed(EINVAL));
    }
    var spath, mustBeDir := SplitPath(path);
    r := WalkPath(t, g, root, if IsAbsolute(path) then root else cwd, spath, chase || mustBeDir, MAX_LINKS);
  }

  // A lookup is resolution by the rules, with fewer than eight nested links;
  // a path with something to trim asks for the last link to be followed.
  lemma LookupIsResolution(t: Tree, g: Id, root: Id, cwd: Id, path: string, chase: bool, r: Result<Id, Failure>)
    requires RootOk(t, g, root) && cwd in t && t[cwd].node.Dir?
    ensures '\0' in path ==> Lookup(t, g, root, cwd, path, chase) == Err(Failed(EINVAL))
    ensures '\0' !in path ==>
            var start := if path != "" && path[0] == '/' then root else cwd;
            var parts, names := Split(path, '/'), Trim(Split(path, '/'));
            Lookup(t, g, root, cwd, path, chase) == r && r != Err(Failed(ELOOP)) <==>
            exists d :: Resolves(t, root, start, names, chase || names != parts, r, d) && Nesting(d) < 8
  {
    hide Walk, Resolves, Split, Trim;
    var names := Trim(Split(path, '/'));
    WalkIsResolution(t, g, root, if IsAbsolute(path) then root else cwd, names, chase || names != Split(path, '/'), 8, r);
  }

  // --- What a process can reach ---

  // Every lookup stays inside the root's subtree exactly when the current
  // directory is in it; an absolute path always does.
  lemma ContainedIffCwdInside(t: Tree, g: Id, root: Id, cwd: Id)
    requires RootOk(t, g, root) && cwd in t && t[cwd].node.Dir? && !t[cwd].stale
    ensures (forall path: string, chase: bool | Lookup(t, g, root, cwd, path, chase).Ok? ::
               Under(t, g, root, Lookup(t, g, root, cwd, path, chase).value))
            <==> Under(t, g, root, cwd)
  {
    DotIsCwd(t, g, root, cwd, false);
    assert Lookup(t, g, root, cwd, ".", false) == Ok(cwd);
  }

  lemma DotIsCwd(t: Tree, g: Id, root: Id, cwd: Id, chase: bool)
    requires RootOk(t, g, root) && cwd in t && t[cwd].node.Dir?
    ensures Lookup(t, g, root, cwd, ".", chase) == if t[cwd].stale then Err(Failed(ESTALE)) else Ok(cwd)
  {
    SplitJoin(["."], '/');
    assert ["."][..0] == [];
  }

  // No lookup reads a null parent exactly when climbing from the current
  // directory does not either.
  lemma NullParentIffUnanchored(t: Tree, g: Id, root: Id, cwd: Id)
    requires RootOk(t, g, root) && cwd in t && t[cwd].node.Dir?
    ensures (forall path: string, chase: bool :: Lookup(t, g, root, cwd, path, chase) != Err(NullParent))
            <==> Anchored(t, g, root, cwd)
  {
    hide Split, Walk, Trim;
    if !Anchored(t, g, root, cwd) {
      var k := ClimbOut(t, g, root, cwd, MAX_LINKS);
      DotsParts(k);
      var path := Join(Dots(k), '/');
      assert Lookup(t, g, root, cwd, path, false) == Err(NullParent);
    } else {
      StartOk(t, g, root);
    }
  }

  function Dots(k: nat): seq<string> {
    seq(k, _ => "..")
  }

  lemma {:induction false} ClimbOut(t: Tree, g: Id, root: Id, x: Id, depth: nat) returns (k: nat)
    requires RootOk(t, g, root) && x in t && t[x].node.Dir? && !Anchored(t, g, root, x) && depth > 0
    ensures k > 0 && Walk(t, g, root, x, Dots(k), false, depth) == Err(NullParent)
    decreases t[x].level
  {
    if t[x].parent.None? {
      k := 1;
    } else {
      assert LinkedOk(t, x);
      k := ClimbOut(t, g, root, t[x].parent.value, depth);
      assert Dots(k + 1)[1..] == Dots(k);
      k := k + 1;
    }
  }

  lemma DotsParts(k: nat)
    requires k > 0
    ensures var path := Join(Dots(k), '/');
            PathIsValid(path) && !IsAbsolute(path) && Split(path, '/') == Dots(k) && Trim(Dots(k)) == Dots(k)
  {
    SplitJoin(Dots(k), '/');
    DotsValid(k);
  }

  lemma {:induction false} DotsValid(k: nat)
    requires k > 0
    ensures PathIsValid(Join(Dots(k), '/')) && !IsAbsolute(Join(Dots(k), '/'))
  {
    if k > 1 {
      DotsValid(k - 1);
      assert Dots(k)[1..] == Dots(k - 1);
    }
  }

  // --- The directory and the last name of a path ---

  datatype Place = Place(dir: Id, name: string, mustBeDir: bool)

  // Unlike the walk, ".." as the last name reports a missing parent.
  method LookupEntry(t: Tree, ghost g: Id, root: Id, pos: Id, path: string) returns (r: Result<Place, Failure>)
    requires RootOk(t, g, root) && pos in t && t[pos].node.Dir?
    ensures r == PlaceOf(t, g, root, pos, path)
  {
    if !PathIsValid(path) {
      return Err(Failed(EINVAL));
    }
    var spath, mustBeDir := SplitPath(path);
    if |spath| == 0 {
      return Ok(Place(pos, "", true));
    }
    var name := spath[|spath| - 1];
    spath := spath[..|spath| - 1];
    var w := WalkPath(t, g, root, pos, spath, true, MAX_LINKS);
    if w.Err? {
      return Err(w.error);
    }
    var dir := w.value;
    if !t[dir].node.Dir? {
      return Err(Failed(ENOTDIR));
    }
    if name == ".." {
      if dir == root {
        return Ok(Place(dir, "", true));
      }
      if t[dir].parent.None? {
        return Err(Failed(ESTALE));
      }
      return Ok(Place(t[dir].parent.value, "", true));
    }
    return Ok(Place(dir, name, mustBeDir));
  }

  ghost function PlaceOf(t: Tree, g: Id, root: Id, pos: Id, path: string): (r: Result<Place, Failure>)
    requires RootOk(t, g, root) && pos in t && t[pos].node.Dir?
    ensures r.Ok? ==> r.value.dir in t && t[r.value.dir].node.Dir?
    ensures r.Ok? && Under(t, g, root, pos) ==> Under(t, g, root, r.value.dir)
  {
    var spath := Trim(Split(path, '/'));
    if !PathIsValid(path) then Err(Failed(EINVAL))
    else if spath == [] then Ok(Place(pos, "", true))
    else
      var name := spath[|spath| - 1];
      var w := Walk(t, g, root, pos, spath[..|spath| - 1], true, MAX_LINKS);
      if w.Err? then Err(w.error)
      else if !t[w.value].node.Dir? then Err(Failed(ENOTDIR))
      else if name == ".." then
        if w.value == root then Ok(Place(root, "", true))
        else if t[w.value].parent.None? then Err(Failed(ESTALE))
        else
          assert w.value == g || LinkedOk(t, w.value);
          Ok(Place(t[w.value].parent.value, "", true))
      else Ok(Place(w.value, name, spath != Split(path, '/')))
  }

  // The entry at a place, with the last link chased or not.
  ghost function EntryAt(t: Tree, g: Id, root: Id, p: Place, chase: bool): Result<Id, Failure>
    requires RootOk(t, g, root) && p.dir in t && t[p.dir].node.Dir?
  {
    if p.name == "" then Ok(p.dir)
    else if p.name !in t[p.dir].node.children then Err(Failed(ENOENT))
    else Step(t, g, root, p.dir, p.name, chase, MAX_LINKS)
  }

  // Both lookups lead to the same entry, for every path: the place LookupEntry
  // gives holds what LookupDirEntry finds. Only a last ".." without a parent
  // separates them.
  lemma LookupsAgree(t: Tree, g: Id, root: Id, cwd: Id, path: string, chase: bool)
    requires RootOk(t, g, root) && cwd in t && t[cwd].node.Dir? && NothingStale(t)
    ensures var p := PlaceOf(t, g, root, if IsAbsolute(path) then root else cwd, path);
            Lookup(t, g, root, cwd, path, chase) ==
            if p.Ok? then EntryAt(t, g, root, p.value, chase || p.value.mustBeDir)
            else if p.error == Failed(ESTALE) then Err(NullParent)
            else Err(p.error)
  {
    hide Split, Walk, Step, Trim, Under, TreeOk;
    var spath := Trim(Split(path, '/'));
    var pos := if IsAbsolute(path) then root else cwd;
    if PathIsValid(path) {
      if spath == [] {
        WalkNothing(t, g, root, pos, true, MAX_LINKS);
      } else {
        var n := |spath| - 1;
        var last := chase || spath != Split(path, '/');
        assert spath == spath[..n] + [spath[n]];
        WalkAppend(t, g, root, pos, spath[..n], [spath[n]], last, MAX_LINKS);
        var w := Walk(t, g, root, pos, spath[..n], true, MAX_LINKS);
        TrimLast(Split(path, '/'));
        if w.Ok? && t[w.value].node.Dir? {
          WalkLast(t, g, root, w.value, spath[n], last, MAX_LINKS);
        }
      }
    }
  }

  lemma WalkNothing(t: Tree, g: Id, root: Id, cur: Id, chase: bool, depth: nat)
    requires RootOk(t, g, root) && cur in t && t[cur].node.Dir? && NothingStale(t) && depth > 0
    ensures Walk(t, g, root, cur, [], chase, depth) == Ok(cur)
  {
  }

  lemma StartOk(t: Tree, g: Id, root: Id)
    requires RootOk(t, g, root)
    ensures root in t && t[root].node.Dir? && Under(t, g, root, root)
  {
  }

  lemma WalkLast(t: Tree, g: Id, root: Id, cur: Id, v: string, chase: bool, depth: nat)
    requires RootOk(t, g, root) && cur in t && t[cur].node.Dir?
    requires NothingStale(t) && depth > 0 && v != "" && v != "."
    ensures Walk(t, g, root, cur, [v], chase, depth) ==
            if v == ".." then
              if cur == root then Ok(root)
              else if t[cur].parent.None? then Err(NullParent)
              else Ok(t[cur].parent.value)
            else if v !in t[cur].node.children then Err(Failed(ENOENT))
            else Step(t, g, root, cur, v, chase, depth)
  {
    assert [v][1..] == [];
    if v == ".." && cur != root && t[cur].parent.Some? {
      assert cur == g || LinkedOk(t, cur);
      WalkNothing(t, g, root, t[cur].parent.value, chase, depth);
    }
  }

  // --- Printing a path ---

  // The names from below root down to x.
  ghost function Names(t: Tree, g: Id, root: Id, x: Id): seq<string>
    requires TreeOk(t, g) && x in t && Under(t, g, root, x)
    decreases t[x].level
  {
    if x == root then [] else Names(t, g, root, t[x].parent.value) + [t[x].name]
  }

  function Slashed(names: seq<string>): string {
    if names == [] then "" else "/" + names[0] + Slashed(names[1..])
  }

  // In its parent's directory map, which the topmost entry never is.
  predicate Listed(t: Tree, g: Id, x: Id)
    requires x in t
  {
    x != g && t[x].parent.Some?
  }

  // Whether the climb from x comes to an end; see PrintingEnds.
  ghost predicate ClimbEnds(t: Tree, g: Id, root: Id, x: Id)
    requires TreeOk(t, g) && x in t
  {
    Under(t, g, root, x) || !Under(t, g, g, x)
  }

  ghost function FullPath(t: Tree, g: Id, root: Id, x: Id): Result<string, Errno>
    requires RootOk(t, g, root) && x in t
  {
    if !Listed(t, g, x) then Ok(t[x].name)
    else if !Under(t, g, root, x) || t[root].parent.None? then Err(ESTALE)
    else if x == root then Ok("/")
    else Ok(Slashed(Names(t, g, root, x)))
  }

  // Printing, wherever the loop ends: an entry in no map is printed without it.
  method GetFullPath(t: Tree, g: Id, root: Id, x: Id) returns (r: Result<string, Errno>)
    requires RootOk(t, g, root) && x in t && (Listed(t, g, x) ==> ClimbEnds(t, g, root, x))
    ensures r == FullPath(t, g, root, x)
  {
    hide Slashed, Reversed;
    if !Listed(t, g, x) {
      return Ok(t[x].name);
    }
    ReversedNone();
    var cur := x;
    var paths: seq<string> := [];
    while true
      invariant cur in t && ClimbEnds(t, g, root, cur) && (Under(t, g, root, cur) <==> Under(t, g, root, x))
      invariant (paths == [] <==> cur == x) && t[cur].level <= t[x].level
      invariant Under(t, g, root, x) ==> Names(t, g, root, x) == Names(t, g, root, cur) + Reversed(paths)
      decreases t[cur].level, cur != root
    {
      if t[cur].parent.None? {
        return Err(ESTALE);
      }
      if cur == root {
        break;
      }
      assert LinkedOk(t, cur);
      ReversedSnoc(paths, t[cur].name);
      paths := paths + [t[cur].name];
      cur := t[cur].parent.value;
    }
    assert Names(t, g, root, x) == Reversed(paths);
    var text := PrintReversed(paths);
    if |paths| == 0 {
      assert text == "" && "" + "/" == "/";
      text := text + "/";
    }
    return Ok(text);
  }

  method PrintReversed(paths: seq<string>) returns (r: string)
    ensures r == Slashed(Reversed(paths))
  {
    hide Slashed, Reversed;
    ReversedNone();
    r := "";
    var i := |paths|;
    assert paths[..i] == paths && paths[..0] == [];
    while i > 0
      invariant 0 <= i <= |paths| && Slashed(Reversed(paths)) == r + Slashed(Reversed(paths[..i]))
    {
      i := i - 1;
      SlashedLast(paths, i);
      ghost var rest := Slashed(Reversed(paths[..i]));
      assert r + ("/" + paths[i] + rest) == r + "/" + paths[i] + rest;
      r := r + "/" + paths[i];
    }
  }

  function Reversed(s: seq<string>): seq<string> {
    if s == [] then [] else [s[|s| - 1]] + Reversed(s[..|s| - 1])
  }

  lemma ReversedNone()
    ensures Reversed([]) == [] && Slashed([]) == ""
  {
  }

  lemma ReversedSnoc(s: seq<string>, n: string)
    ensures Reversed(s + [n]) == [n] + Reversed(s)
  {
    assert (s + [n])[..|s|] == s;
  }

  lemma SlashedLast(paths: seq<string>, i: nat)
    requires i < |paths|
    ensures Slashed(Reversed(paths[..i + 1])) == "/" + paths[i] + Slashed(Reversed(paths[..i]))
  {
    var rest := Reversed(paths[..i]);
    assert paths[..i + 1] == paths[..i] + [paths[i]];
    ReversedSnoc(paths[..i], paths[i]);
    assert ([paths[i]] + rest)[1..] == rest;
  }

  // --- Printing and walking are inverse ---

  predicate Ordinary(name: string) {
    name != "" && name != "." && name != ".." && '/' !in name && '\0' !in name
  }

  // Every entry below root down to x has an ordinary name and is not stale.
  ghost predicate Clean(t: Tree, g: Id, root: Id, x: Id)
    requires TreeOk(t, g) && x in t && Under(t, g, root, x)
    decreases t[x].level
  {
    x == root || (Ordinary(t[x].name) && !t[x].stale && Clean(t, g, root, t[x].parent.value))
  }

  // Walking down to a directory d and on.
  lemma {:induction false} WalkDown(t: Tree, g: Id, root: Id, d: Id, rest: seq<string>, chase: bool, depth: nat)
    requires RootOk(t, g, root) && d in t && t[d].node.Dir? && Under(t, g, root, d) && Clean(t, g, root, d)
    requires rest != [] && depth > 0
    ensures Walk(t, g, root, root, Names(t, g, root, d) + rest, chase, depth) ==
            Walk(t, g, root, d, rest, chase, depth)
    decreases t[d].level
  {
    if d == root {
      assert [] + rest == rest;
    } else {
      var p, n := t[d].parent.value, t[d].name;
      WalkDown(t, g, root, p, [n] + rest, chase, depth);
      assert Names(t, g, root, d) + rest == Names(t, g, root, p) + ([n] + rest);
      assert ([n] + rest)[1..] == rest;
    }
  }

  lemma WalkTo(t: Tree, g: Id, root: Id, x: Id, chase: bool, depth: nat)
    requires RootOk(t, g, root) && x in t && Under(t, g, root, x) && Clean(t, g, root, x) && x != root
    requires depth > 0 && (chase ==> !t[x].node.Link?)
    ensures Walk(t, g, root, root, Names(t, g, root, x), chase, depth) == Ok(x)
  {
    WalkDown(t, g, root, t[x].parent.value, [t[x].name], chase, depth);
  }

  lemma {:induction false} NamesClean(t: Tree, g: Id, root: Id, x: Id)
    requires RootOk(t, g, root) && x in t && Under(t, g, root, x) && Clean(t, g, root, x)
    ensures forall i | 0 <= i < |Names(t, g, root, x)| :: Ordinary(Names(t, g, root, x)[i])
    decreases t[x].level
  {
    if x != root { NamesClean(t, g, root, t[x].parent.value); }
  }

  lemma {:induction false} SlashedIsJoin(names: seq<string>)
    requires names != []
    ensures Slashed(names) == Join([""] + names, '/')
  {
    var all := [""] + names;
    assert all[1..] == names;
    if |names| == 1 {
      assert names[1..] == [];
    } else {
      SlashedIsJoin(names[1..]);
      assert ([""] + names[1..])[1..] == names[1..];
    }
  }

  lemma {:induction false} SlashedValid(names: seq<string>)
    requires forall i | 0 <= i < |names| :: Ordinary(names[i])
    ensures PathIsValid(Slashed(names)) && (names != [] ==> IsAbsolute(Slashed(names)))
  {
    if names != [] { SlashedValid(names[1..]); }
  }

  // The printed path splits into an empty first component and the names.
  lemma PrintedParts(names: seq<string>)
    requires names != [] && forall i | 0 <= i < |names| :: Ordinary(names[i])
    ensures Split(Slashed(names), '/') == [""] + names && Trim([""] + names) == [""] + names
  {
    hide Split, Join, Slashed;
    var all := [""] + names;
    assert NoneHas(all, '/');
    SlashedIsJoin(names);
    SplitJoin(all, '/');
    assert all[|all| - 1] == names[|names| - 1];
  }

  // Resolving the printed path of a listed entry gives the entry back.
  lemma RoundTrip(t: Tree, g: Id, root: Id, cwd: Id, x: Id, chase: bool)
    requires RootOk(t, g, root) && t[root].parent.Some? && !t[root].stale
    requires cwd in t && t[cwd].node.Dir?
    requires x in t && Listed(t, g, x) && Under(t, g, root, x) && Clean(t, g, root, x)
    requires chase ==> !t[x].node.Link?
    ensures var path := FullPath(t, g, root, x);
            path.Ok? && Lookup(t, g, root, cwd, path.value, chase) == Ok(x)
  {
    if x == root {
      RootParts();
    } else {
      var names := Names(t, g, root, x);
      NamesClean(t, g, root, x);
      SlashedValid(names);
      PrintedParts(names);
      assert ([""] + names)[1..] == names;
      WalkTo(t, g, root, x, chase, MAX_LINKS);
    }
  }

  // A link whose target is the printed path of an entry leads to that entry,
  // wherever the link is.
  lemma LinkToPrinted(t: Tree, g: Id, root: Id, cur: Id, name: string, x: Id, depth: nat)
    requires RootOk(t, g, root) && t[root].parent.Some? && !t[root].stale && depth > 1
    requires cur in t && t[cur].node.Dir? && Named([name]) && name in t[cur].node.children
    requires x in t && Listed(t, g, x) && Under(t, g, root, x) && Clean(t, g, root, x) && !t[x].node.Link?
    requires var l := t[t[cur].node.children[name]]; !l.stale && l.node == Link(FullPath(t, g, root, x).value)
    ensures Walk(t, g, root, cur, [name], true, depth) == Ok(x)
  {
    WalkName(t, g, root, cur, [name], true, depth);
    PrintedWalk(t, g, root, x, depth - 1);
  }

  // The printed path, split and walked from the root.
  lemma PrintedWalk(t: Tree, g: Id, root: Id, x: Id, depth: nat)
    requires RootOk(t, g, root) && t[root].parent.Some? && !t[root].stale && depth > 0
    requires x in t && Listed(t, g, x) && Under(t, g, root, x) && Clean(t, g, root, x) && !t[x].node.Link?
    ensures var path := FullPath(t, g, root, x).value;
            IsAbsolute(path) && Walk(t, g, root, root, Split(path, '/'), true, depth) == Ok(x)
  {
    if x == root {
      RootSplit();
      assert ["", ""][1..] == [""] && [""][1..] == [];
      assert Walk(t, g, root, root, [""], true, depth) == Walk(t, g, root, root, [], true, depth) == Ok(root);
    } else {
      var names := Names(t, g, root, x);
      NamesClean(t, g, root, x);
      SlashedValid(names);
      PrintedParts(names);
      assert ([""] + names)[1..] == names;
      WalkTo(t, g, root, x, true, depth);
    }
  }

  lemma RootSplit()
    ensures Split("/", '/') == ["", ""]
  {
    SplitJoin(["", ""], '/');
    assert ["", ""][1..] == [""];
    assert Join(["", ""], '/') == "/";
  }

  // A link whose target is the name of a sibling leads to the sibling.
  lemma LinkToSibling(t: Tree, g: Id, root: Id, cur: Id, name: string, sibling: string, depth: nat)
    requires RootOk(t, g, root) && cur in t && t[cur].node.Dir? && depth > 1
    requires Named([name]) && Ordinary(sibling) && name in t[cur].node.children && sibling in t[cur].node.children
    requires var l := t[t[cur].node.children[name]]; !l.stale && l.node == Link(sibling)
    requires var e := t[t[cur].node.children[sibling]]; !e.stale && !e.node.Link?
    ensures Walk(t, g, root, cur, [name], true, depth) == Ok(t[cur].node.children[sibling])
  {
    SplitJoin([sibling], '/');
    assert Join([sibling], '/') == sibling;
    WalkName(t, g, root, cur, [name], true, depth);
    WalkName(t, g, root, cur, [sibling], true, depth - 1);
  }

  lemma RootParts()
    ensures Trim(Split("/", '/')) == [] && Split("/", '/') != [] && PathIsValid("/")
  {
    RootSplit();
    assert ["", ""][..1] == [""] && [""][..0] == [];
  }

  // The topmost entry is not listed anywhere and prints as its name, ".",
  // which resolves to the current directory: right only when that is where
  // the process is.
  lemma TopRoundTrip(t: Tree, g: Id, root: Id, cwd: Id, chase: bool)
    requires RootOk(t, g, root) && t[g].name == "." && cwd in t && t[cwd].node.Dir?
    ensures FullPath(t, g, root, g) == Ok(".")
    ensures Lookup(t, g, root, cwd, ".", chase) == Ok(g) <==> cwd == g && !t[g].stale
  {
    DotIsCwd(t, g, root, cwd, chase);
  }

  // --- When printing ends ---

  function Ancestor(t: Tree, x: Id, k: nat): Option<Id>
    decreases k
  {
    if x !in t then None
    else if k == 0 then Some(x)
    else if t[x].parent.None? then None
    else Ancestor(t, t[x].parent.value, k - 1)
  }

  // After k rounds the printing loop is at an entry that ends it.
  predicate StopsAfter(t: Tree, root: Id, x: Id, k: nat) {
    var c := Ancestor(t, x, k);
    c.Some? && c.value in t && (c.value == root || t[c.value].parent.None?)
  }

  // Printing a listed entry ends exactly when the climb meets the root or an
  // unlinked entry; otherwise it circles at the topmost one.
  lemma PrintingEnds(t: Tree, g: Id, root: Id, x: Id)
    requires RootOk(t, g, root) && x in t
    ensures (exists k: nat :: StopsAfter(t, root, x, k)) <==> ClimbEnds(t, g, root, x)
    ensures Under(t, g, root, x) <==> exists k: nat :: Ancestor(t, x, k) == Some(root)
  {
    if ClimbEnds(t, g, root, x) {
      var k := ClimbStops(t, g, root, x);
      assert StopsAfter(t, root, x, k);
    } else {
      forall k: nat ensures !StopsAfter(t, root, x, k) { ClimbCircles(t, g, root, x, k); }
    }
    if Under(t, g, root, x) {
      var k := ClimbMeets(t, g, root, x);
    }
    if k: nat :| Ancestor(t, x, k) == Some(root) {
      MeetingIsUnder(t, g, root, x, k);
    }
  }

  lemma {:induction false} ClimbStops(t: Tree, g: Id, root: Id, x: Id) returns (k: nat)
    requires RootOk(t, g, root) && x in t && ClimbEnds(t, g, root, x)
    ensures StopsAfter(t, root, x, k)
    decreases t[x].level
  {
    if x == root || t[x].parent.None? {
      k := 0;
    } else {
      assert LinkedOk(t, x);
      k := ClimbStops(t, g, root, t[x].parent.value);
      k := k + 1;
    }
  }

  lemma {:induction false} ClimbCircles(t: Tree, g: Id, root: Id, x: Id, k: nat)
    requires RootOk(t, g, root) && x in t && !ClimbEnds(t, g, root, x)
    ensures !StopsAfter(t, root, x, k)
    decreases k
  {
    if k > 0 { ClimbCircles(t, g, root, t[x].parent.value, k - 1); }
  }

  // The k-th entry of the climb has no parent, and the root was not met before it.
  ghost predicate Severed(t: Tree, root: Id, x: Id, k: nat) {
    && Ancestor(t, x, k).Some? && Ancestor(t, x, k).value in t && t[Ancestor(t, x, k).value].parent.None?
    && forall j: nat | j < k :: Ancestor(t, x, j) != Some(root)
  }

  // Printing a listed entry fails exactly when the climb meets an unlinked
  // entry at or below the root.
  lemma PrintsStale(t: Tree, g: Id, root: Id, x: Id)
    requires RootOk(t, g, root) && x in t && Listed(t, g, x) && ClimbEnds(t, g, root, x)
    ensures FullPath(t, g, root, x) == Err(ESTALE) <==> exists k: nat :: Severed(t, root, x, k)
  {
    if !Under(t, g, root, x) {
      var k := ClimbStops(t, g, root, x);
      forall j: nat ensures Ancestor(t, x, j) != Some(root) {
        if Ancestor(t, x, j) == Some(root) { MeetingIsUnder(t, g, root, x, j); }
      }
      assert Severed(t, root, x, k);
    } else {
      var k := ClimbMeets(t, g, root, x);
      if t[root].parent.None? {
        assert Severed(t, root, x, k);
      } else {
        forall i: nat ensures !Severed(t, root, x, i) {
          if i < k { BelowRootLinked(t, g, root, x, i); }
        }
      }
    }
  }

  lemma {:induction false} BelowRootLinked(t: Tree, g: Id, root: Id, x: Id, k: nat)
    requires RootOk(t, g, root) && x in t && Under(t, g, root, x)
    requires forall j: nat | j <= k :: Ancestor(t, x, j) != Some(root)
    ensures Ancestor(t, x, k).Some? ==> Ancestor(t, x, k).value in t && t[Ancestor(t, x, k).value].parent.Some?
    decreases k
  {
    assert Ancestor(t, x, 0) == Some(x);
    if k > 0 {
      forall j: nat | j <= k - 1 ensures Ancestor(t, t[x].parent.value, j) != Some(root) {
        assert Ancestor(t, x, j + 1) == Ancestor(t, t[x].parent.value, j);
      }
      BelowRootLinked(t, g, root, t[x].parent.value, k - 1);
    }
  }

  lemma {:induction false} ClimbMeets(t: Tree, g: Id, root: Id, x: Id) returns (k: nat)
    requires RootOk(t, g, root) && x in t && Under(t, g, root, x)
    ensures Ancestor(t, x, k) == Some(root) && forall j: nat | j < k :: Ancestor(t, x, j) != Some(root)
    decreases t[x].level
  {
    if x == root {
      k := 0;
    } else {
      k := ClimbMeets(t, g, root, t[x].parent.value);
      k := k + 1;
    }
  }

  lemma {:induction false} MeetingIsUnder(t: Tree, g: Id, root: Id, x: Id, k: nat)
    requires RootOk(t, g, root) && x in t && Ancestor(t, x, k) == Some(root)
    ensures Under(t, g, root, x)
    decreases k
  {
    if k > 0 {
      if x == g {
        MeetingIsUnder(t, g, root, g, k - 1);
      } else {
        assert LinkedOk(t, x);
        MeetingIsUnder(t, g, root, t[x].parent.value, k - 1);
      }
    }
  }

  // --- Examples ---

  // Directories a and b under the topmost one, and c that was unlinked.
  function Small(): Tree {
    map[0 := Entry(".", Some(0), Dir(map["a" := 1, "b" := 2]), false, 0),
        1 := Entry("a", Some(0), Dir(map[]), false, 1),
        2 := Entry("b", Some(0), Dir(map[]), false, 1),
        3 := Entry("c", None, Dir(map[]), false, 1)]
  }

  lemma SmallOk()
    ensures RootOk(Small(), 0, 1) && Small()[0].name == "." && !Under(Small(), 0, 1, 2) && Under(Small(), 0, 0, 2)
    ensures !Anchored(Small(), 0, 1, 3)
  {
    var t := Small();
    assert LinkedOk(t, 1) && LinkedOk(t, 2);
    assert !Under(t, 0, 1, 0) && Under(t, 0, 0, 0);
  }

  // A process whose root is a and whose current directory is b: "." is outside
  // the root, printing the current directory does not end, and the topmost
  // entry prints as a name that resolves to b.
  lemma CwdOutsideRoot()
    ensures var t := Small();
            && RootOk(t, 0, 1) && Lookup(t, 0, 1, 2, ".", true) == Ok(2) && !Under(t, 0, 1, 2)
            && Listed(t, 0, 2) && (forall k: nat :: !StopsAfter(t, 1, 2, k))
            && FullPath(t, 0, 1, 0) == Ok(".")
  {
    var t := Small();
    SmallOk();
    DotIsCwd(t, 0, 1, 2, true);
    PrintingEnds(t, 0, 1, 2);
    TopRoundTrip(t, 0, 1, 2, true);
  }

  // Climbing from a current directory that was unlinked.
  lemma UnlinkedCwd()
    ensures RootOk(Small(), 0, 1) && Lookup(Small(), 0, 1, 3, "..", true) == Err(NullParent)
  {
    SmallOk();
    SplitJoin([".."], '/');
    assert Join([".."], '/') == "..";
  }
}
