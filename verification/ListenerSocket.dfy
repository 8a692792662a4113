/**
 Binding the listener: the public path becomes a link to a `phony` socket beside it.  The
 file tree is changed step by step, and any step may be refused by the system.
 */
module ListenerSocket {
  import opened Options
  import opened Text

  /** Directory components and a final name; a path without either cannot be bound. */
  type Path = seq<string>

  datatype Node = File | Directory | Socket(listener: nat) | Link(target: string)

  type Tree = map<Path, Node>

  /** A system call that fails for a reason of its own: permissions, a full disk, a bad mount. */
  datatype Fault = Stat(path: Path) | Unlink(path: Path) | Bind | Permissions | Symlink

  datatype Result<+T> = Ok(value: T) | Err(reason: string)

  /** `parse_listener_uri`: a `unix:` or `unix://` URI naming an absolute path. */
  function ParseListenerUri(value: string): Option<string> {
    var trimmed := Trim(value);
    if "unix://" <= trimmed then AbsolutePath(trimmed[7..])
    else if "unix:" <= trimmed then AbsolutePath(trimmed[5..])
    else None
  }

  function AbsolutePath(raw: string): (r: Option<string>)
    ensures r.Some? ==> r.value == raw
  {
    if Trim(raw) == "" || raw == "" || raw[0] != '/' then None else Some(raw)
  }

  lemma AbsoluteIff(raw: string)
    ensures AbsolutePath(raw).Some? <==> raw != "" && raw[0] == '/'
  {
    if raw != "" && raw[0] == '/' {
      assert TrimStart(raw) == raw;
      assert !IsWhite(raw[0]);
    }
  }

  /** The value, white space around it aside, is `unix://` or `unix:` and this absolute path. */
  ghost predicate NamesSocket(value: string, path: string) {
    exists t :: TrimsTo(value, t) && path != "" && path[0] == '/'
      && (t == "unix://" + path || (t == "unix:" + path && !("unix://" <= t)))
  }

  lemma ParseUriIff(value: string, path: string)
    ensures ParseListenerUri(value) == Some(path) <==> NamesSocket(value, path)
  {
    hide Trim, TrimsTo, AbsolutePath;
    TrimPads(value);
    var t := Trim(value);
    if "unix://" <= t {
      AbsoluteIff(t[7..]);
      Cut("unix://", path);
      assert t == "unix://" + t[7..];
    } else if "unix:" <= t {
      AbsoluteIff(t[5..]);
      Cut("unix:", path);
      assert t == "unix:" + t[5..];
    }
    if NamesSocket(value, path) {
      var u :| TrimsTo(value, u) && (u == "unix://" + path || (u == "unix:" + path && !("unix://" <= u)));
      TrimIs(value, u);
      Cut("unix://", path);
      Cut("unix:", path);
    }
  }

  /** Both spellings of an absolute path parse to that path. */
  lemma BothSpellings(path: string)
    requires path != "" && path[0] == '/' && Trimmed(path) && (|path| == 1 || path[1] != '/')
    ensures ParseListenerUri("unix://" + path) == Some(path)
    ensures ParseListenerUri("unix:" + path) == Some(path)
  {
    hide Trim, Trimmed, AbsolutePath;
    AbsoluteIff(path);
    PrefixedTrimmed("unix://", path);
    PrefixedTrimmed("unix:", path);
    Cut("unix://", path);
    Cut("unix:", path);
    NotBoth(path);
  }

  lemma Cut(prefix: string, rest: string)
    ensures prefix <= prefix + rest && (prefix + rest)[|prefix|..] == rest
  {}

  lemma NotBoth(path: string)
    requires path != "" && path[0] == '/' && (|path| == 1 || path[1] != '/')
    ensures !("unix://" <= "unix:" + path)
  {
    var t := "unix:" + path;
    assert |path| > 1 ==> t[6] == path[1];
    assert "unix://"[6] == '/';
  }

  lemma PrefixedTrimmed(prefix: string, path: string)
    requires prefix != "" && !IsWhite(prefix[0]) && path != "" && Trimmed(path)
    ensures Trim(prefix + path) == prefix + path
  {
    TrimOfTrimmed(prefix + path);
  }

  function PublicPath(parent: Path, name: string): Path {
    parent + [name]
  }

  function PhonyName(name: string): string {
    "phony" + name
  }

  function PhonyPath(parent: Path, name: string): Path {
    parent + [PhonyName(name)]
  }

  predicate Replaceable(tree: Tree, path: Path) {
    path in tree ==> tree[path].Socket? || tree[path].Link?
  }

  predicate IsDirectory(tree: Tree, path: Path) {
    path in tree && tree[path] == Directory
  }

  /** The tree after the previous entry is out of the way, or nothing if that is refused. */
  function Cleared(tree: Tree, faults: set<Fault>, path: Path): Option<Tree> {
    if Stat(path) in faults then None
    else if path !in tree then Some(tree)
    else if !Replaceable(tree, path) || Unlink(path) in faults then None
    else Some(tree - {path})
  }

  datatype Attempt = Attempt(bound: bool, nodes: Tree)

  /** Where each step of a bind attempt can stop it, and the tree it leaves when it does. */
  function Bound(tree: Tree, faults: set<Fault>, parent: Path, name: string, listener: nat): Attempt {
    match Cleared(tree, faults, PublicPath(parent, name))
    case None => Attempt(false, tree)
    case Some(first) =>
      match Cleared(first, faults, PhonyPath(parent, name))
      case None => Attempt(false, first)
      case Some(second) =>
        if !IsDirectory(second, parent) || Bind in faults then Attempt(false, second)
        else
          var third := second[PhonyPath(parent, name) := Socket(listener)];
          if Permissions in faults || Symlink in faults then Attempt(false, third)
          else Attempt(true, third[PublicPath(parent, name) := Link(PhonyName(name))])
  }

  class FileTree {
    var nodes: Tree
    /** The system calls that fail in this attempt. */
    var faults: set<Fault>

    constructor (nodes: Tree, faults: set<Fault>)
      ensures this.nodes == nodes && this.faults == faults
    {
      this.nodes := nodes;
      this.faults := faults;
    }

    /** `remove_previous_socket`: nothing there is fine, anything but a socket or link is not. */
    method RemovePrevious(path: Path) returns (r: Result<()>)
      modifies this`nodes
      ensures match Cleared(old(nodes), faults, path)
              case Some(tree) => r.Ok? && nodes == tree
              case None => r.Err? && nodes == old(nodes)
    {
      if Stat(path) in faults {
        return Err("stat");
      }
      if path !in nodes {
        return Ok(());
      }
      if !nodes[path].Socket? && !nodes[path].Link? {
        return Err("refusing to replace a non-socket FN_LISTENER path");
      }
      if Unlink(path) in faults {
        return Err("unlink");
      }
      nodes := nodes - {path};
      return Ok(());
    }

    /** `bind`, for a path with a parent and a name. */
    method BindListener(parent: Path, name: string, listener: nat) returns (r: Result<nat>)
      modifies this`nodes
      ensures var attempt := Bound(old(nodes), faults, parent, name, listener);
              nodes == attempt.nodes && (r == Ok(listener) <==> attempt.bound) && (r.Err? <==> !attempt.bound)
    {
      hide PublicPath, PhonyPath, PhonyName, Cleared;
      var removed := RemovePrevious(PublicPath(parent, name));
      if removed.Err? {
        return Err(removed.reason);
      }
      removed := RemovePrevious(PhonyPath(parent, name));
      if removed.Err? {
        return Err(removed.reason);
      }
      if parent !in nodes || nodes[parent] != Directory || Bind in faults {
        return Err("bind");
      }
      nodes := nodes[PhonyPath(parent, name) := Socket(listener)];
      if Permissions in faults {
        return Err("chmod");
      }
      if Symlink in faults {
        return Err("symlink");
      }
      nodes := nodes[PublicPath(parent, name) := Link(PhonyName(name))];
      return Ok(listener);
    }
  }

  /** A path that is free, or that holds a socket or link which may be removed. */
  predicate Clearable(tree: Tree, faults: set<Fault>, path: Path) {
    Stat(path) !in faults && Replaceable(tree, path) && (path in tree ==> Unlink(path) !in faults)
  }

  /** When a bind attempt succeeds. */
  predicate Bindable(tree: Tree, faults: set<Fault>, parent: Path, name: string) {
    && IsDirectory(tree, parent)
    && Clearable(tree, faults, PublicPath(parent, name)) && Clearable(tree, faults, PhonyPath(parent, name))
    && Bind !in faults && Permissions !in faults && Symlink !in faults
  }

  function BoundTree(tree: Tree, parent: Path, name: string, listener: nat): Tree {
    tree[PhonyPath(parent, name) := Socket(listener)][PublicPath(parent, name) := Link(PhonyName(name))]
  }

  /** Following the public path inside its directory. */
  function Resolve(tree: Tree, parent: Path, name: string): Option<Node> {
    if PublicPath(parent, name) !in tree then None
    else
      match tree[PublicPath(parent, name)]
      case Link(target) => if parent + [target] in tree then Some(tree[parent + [target]]) else None
      case node => Some(node)
  }

  lemma PathsDiffer(parent: Path, name: string)
    ensures PublicPath(parent, name) != PhonyPath(parent, name)
    ensures PublicPath(parent, name) != parent && PhonyPath(parent, name) != parent
  {
    assert |PhonyName(name)| == |name| + 5;
    assert PublicPath(parent, name)[|parent|] == name && PhonyPath(parent, name)[|parent|] == PhonyName(name);
  }

  /** Whatever happens, only the public and the phony path can change. */
  lemma TouchesOnlyTwoPaths(tree: Tree, faults: set<Fault>, parent: Path, name: string, listener: nat, p: Path)
    requires p != PublicPath(parent, name) && p != PhonyPath(parent, name)
    ensures var after := Bound(tree, faults, parent, name, listener).nodes;
            (p in after <==> p in tree) && (p in tree ==> after[p] == tree[p])
  {
    hide PublicPath, PhonyPath;
  }

  /** And a regular file or directory is never removed or replaced, not even at those two. */
  lemma NeverRemovesFiles(tree: Tree, faults: set<Fault>, parent: Path, name: string, listener: nat, p: Path)
    requires p in tree && (tree[p].File? || tree[p].Directory?)
    ensures var after := Bound(tree, faults, parent, name, listener).nodes;
            p in after && after[p] == tree[p]
  {
    PathsDiffer(parent, name);
    hide PublicPath, PhonyPath;
  }

  /** Exactly when an attempt succeeds, and the tree it then leaves. */
  lemma SucceedsIffBindable(tree: Tree, faults: set<Fault>, parent: Path, name: string, listener: nat)
    ensures Bound(tree, faults, parent, name, listener).bound <==> Bindable(tree, faults, parent, name)
    ensures Bindable(tree, faults, parent, name) ==>
              Bound(tree, faults, parent, name, listener).nodes == BoundTree(tree, parent, name, listener)
  {
    PathsDiffer(parent, name);
    hide PublicPath, PhonyPath;
  }

  /** When only the second removal is refused, the public entry is already gone and nothing else changed. */
  lemma SecondRemovalRefused(tree: Tree, faults: set<Fault>, parent: Path, name: string, listener: nat)
    requires Clearable(tree, faults, PublicPath(parent, name)) && !Clearable(tree, faults, PhonyPath(parent, name))
    ensures Bound(tree, faults, parent, name, listener) == Attempt(false, tree - {PublicPath(parent, name)})
  {
    PathsDiffer(parent, name);
    hide PublicPath, PhonyPath;
    assert PublicPath(parent, name) !in tree ==> tree - {PublicPath(parent, name)} == tree;
  }

  /** The tree each attempt leaves: where it stops, and what it has done by then. */
  function Left(tree: Tree, faults: set<Fault>, parent: Path, name: string, listener: nat): Attempt {
    var public, phony := parent + [name], parent + ["phony" + name];
    if !Clearable(tree, faults, public) then Attempt(false, tree)
    else if !Clearable(tree, faults, phony) then Attempt(false, tree - {public})
    else if !IsDirectory(tree, parent) || Bind in faults then Attempt(false, tree - {public, phony})
    else if Permissions in faults || Symlink in faults then
      Attempt(false, (tree - {public})[phony := Socket(listener)])
    else Attempt(true, tree[phony := Socket(listener)][public := Link("phony" + name)])
  }

  /** Every attempt ends in exactly one of these ways, told from the tree it started with. */
  lemma AttemptExact(tree: Tree, faults: set<Fault>, parent: Path, name: string, listener: nat)
    ensures Bound(tree, faults, parent, name, listener) == Left(tree, faults, parent, name, listener)
  {
    PathsDiffer(parent, name);
    var public, phony := PublicPath(parent, name), PhonyPath(parent, name);
    ClearedIs(tree, faults, public);
    if Clearable(tree, faults, public) {
      ClearedIs(tree - {public}, faults, phony);
      assert tree - {public} - {phony} == tree - {public, phony};
      assert (tree - {public, phony})[phony := Socket(listener)] == (tree - {public})[phony := Socket(listener)];
      assert (tree - {public})[phony := Socket(listener)][public := Link(PhonyName(name))]
          == tree[phony := Socket(listener)][public := Link(PhonyName(name))];
    }
  }

  lemma ClearedIs(tree: Tree, faults: set<Fault>, path: Path)
    ensures Cleared(tree, faults, path) == if Clearable(tree, faults, path) then Some(tree - {path}) else None
  {
    assert path !in tree ==> tree - {path} == tree;
  }

  /** Even a failed attempt leaves a tree in which the next one can succeed. */
  lemma FaultsAreRecoverable(tree: Tree, faults: set<Fault>, parent: Path, name: string, listener: nat)
    requires Bindable(tree, {}, parent, name)
    ensures Bindable(Bound(tree, faults, parent, name, listener).nodes, {}, parent, name)
  {
    PathsDiffer(parent, name);
    hide PublicPath, PhonyPath;
  }

  /** After a successful bind the public path leads to the socket just bound. */
  lemma PublicPathResolves(tree: Tree, parent: Path, name: string, listener: nat)
    ensures Resolve(BoundTree(tree, parent, name, listener), parent, name) == Some(Socket(listener))
  {
    PathsDiffer(parent, name);
  }

  /** One start of the process: the socket it would own and the calls that fail it. */
  datatype Start = Start(listener: nat, faults: set<Fault>)

  /** The tree after a sequence of starts, successful or not. */
  function Restarted(tree: Tree, parent: Path, name: string, starts: seq<Start>): Tree {
    if starts == [] then tree
    else
      var last := starts[|starts| - 1];
      Bound(Restarted(tree, parent, name, starts[..|starts| - 1]), last.faults, parent, name, last.listener).nodes
  }

  /**
   A directory in which one bind can succeed keeps accepting restarts: whatever earlier
   starts left behind, failed ones included, a start that meets no fault binds, and the
   public path leads to its socket.
   */
  lemma {:induction false} RestartsKeepSucceeding(tree: Tree, parent: Path, name: string, starts: seq<Start>)
    requires Bindable(tree, {}, parent, name)
    ensures Bindable(Restarted(tree, parent, name, starts), {}, parent, name)
    ensures starts != [] && starts[|starts| - 1].faults == {} ==>
              Resolve(Restarted(tree, parent, name, starts), parent, name)
                == Some(Socket(starts[|starts| - 1].listener))
  {
    hide Bindable, Resolve, Bound, BoundTree;
    if starts == [] {
    } else {
      var last := starts[|starts| - 1];
      var before := Restarted(tree, parent, name, starts[..|starts| - 1]);
      RestartsKeepSucceeding(tree, parent, name, starts[..|starts| - 1]);
      FaultsAreRecoverable(before, last.faults, parent, name, last.listener);
      SucceedsIffBindable(before, last.faults, parent, name, last.listener);
      PublicPathResolves(before, parent, name, last.listener);
    }
  }
}
