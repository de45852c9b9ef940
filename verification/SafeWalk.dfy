/**
 File creation and deletion that follow no reparse point (src/file/safe.rs). Other processes may
 rename, replace and link directories between any two system calls: the volume is an arbitrary
 function of time, and the k-th system call sees the world at time k.
 */
module SafeWalk {
  import opened Wrappers
  import opened Bytes
  import opened Unicode

  /**
   The volume at one moment. Directories and files are objects; a handle refers to an object, and
   an open relative to it looks the name up among that object's children.
   */
  datatype World = World(
    roots: map<char, nat>,
    children: map<(nat, string), nat>,
    directories: set<nat>,
    reparse: set<nat>,
    denied: set<nat>
  )

  type Interference = nat -> World

  /** A component of a Windows path as the standard library splits it; a name that is no Unicode has no string. */
  datatype Component =
    | Drive(letter: char)
    | OtherPrefix
    | RootDir
    | CurDir
    | ParentDir
    | Normal(name: Option<string>)

  datatype WalkError =
    | NotAbsolute
    | UnsupportedPrefix
    | DotComponent
    | NotUnicode
    | InvalidName
    | OpenFailed
    | QueryFailed
    | ReparsePoint
    | WriteFailed
    | DeleteFailed

  // ----- names -----

  /** UTF-16 code units of a name. */
  function WideLength(name: string): (n: nat)
  {
    if name == [] then 0 else WideLength(name[1..]) + (if name[0] as int > 0xFFFF then 2 else 1)
  }

  lemma {:induction false} WideLengthIs(name: string)
    ensures WideLength(name) == |EncodeUtf16(name)|
  {
    if name != [] {
      WideLengthIs(name[1..]);
    }
  }

  /** `UNICODE_STRING` holds its byte length in 16 bits. */
  predicate FitsUnicodeString(name: string) {
    WideLength(name) * 2 <= 0xFFFF
  }

  predicate Separates(c: char) {
    c == '\\' || c == '/' || c == ':' || c == '\0'
  }

  /** A single path component: no separators, no stream syntax, not `.` or `..`. */
  predicate PlainName(name: string) {
    name != "" && name != "." && name != ".." && forall i :: 0 <= i < |name| ==> !Separates(name[i])
  }

  method ValidateFileName(name: string) returns (ok: bool)
    ensures ok <==> PlainName(name)
    ensures ok <==> name !in {"", ".", ".."} && '\\' !in name && '/' !in name && ':' !in name && '\0' !in name
  {
    if name == "" || name == "." || name == ".." {
      return false;
    }
    for i := 0 to |name|
      invariant forall j :: 0 <= j < i ==> !Separates(name[j])
    {
      if Separates(name[i]) {
        return false;
      }
    }
    return true;
  }

  // ----- what a walk reaches -----

  /** Opening a directory by one name relative to a directory object; a reparse point is opened itself, not followed. */
  function LookupDirectory(w: World, parent: nat, name: string): (node: Option<nat>)
  {
    if FitsUnicodeString(name) && (parent, name) in w.children && w.children[(parent, name)] in w.directories
       && w.children[(parent, name)] !in w.denied
    then Some(w.children[(parent, name)]) else None
  }

  function LookupFile(w: World, parent: nat, name: string): (node: Option<nat>)
  {
    if FitsUnicodeString(name) && (parent, name) in w.children && w.children[(parent, name)] !in w.directories
       && w.children[(parent, name)] !in w.denied
    then Some(w.children[(parent, name)]) else None
  }

  /** A name is looked up exactly if it has at most 32767 units, and finds a directory there that may be opened. */
  lemma LookupDirectoryIff(w: World, parent: nat, name: string, node: nat)
    ensures LookupDirectory(w, parent, name) == Some(node)
            <==>
            && |EncodeUtf16(name)| <= 32767 && (parent, name) in w.children.Keys && w.children[(parent, name)] == node
            && node in w.directories && node !in w.denied
    ensures LookupFile(w, parent, name) == Some(node)
            <==>
            && |EncodeUtf16(name)| <= 32767 && (parent, name) in w.children.Keys && w.children[(parent, name)] == node
            && node !in w.directories && node !in w.denied
  {
    WideLengthIs(name);
  }

  predicate Absolute(path: seq<Component>) {
    |path| >= 2 && path[0].Drive? && path[1].RootDir?
  }

  predicate Named(c: Component) {
    c.Normal? && c.name.Some?
  }

  /**
   The directory objects a walk has gone through: the volume root, then for each name the child of
   the previous object, looked up at one moment and found not to be a reparse point at a later one,
   both before the next lookup starts.
   */
  ghost predicate VerifiedPrefix(env: Interference, path: seq<Component>, start: nat, chain: seq<nat>) {
    && Absolute(path) && 1 <= |chain| < |path|
    && RootOf(env(start), path[0].letter) == Some(chain[0])
    && forall i :: 1 <= i < |chain| ==> VerifiedStep(env, path[i + 1], start + 2 * i - 1, chain[i - 1], chain[i])
  }

  /** The walk got to the end of the path. */
  ghost predicate VerifiedChain(env: Interference, path: seq<Component>, start: nat, chain: seq<nat>) {
    VerifiedPrefix(env, path, start, chain) && |chain| == |path| - 1
  }

  predicate VerifiedStep(env: Interference, component: Component, time: nat, parent: nat, child: nat) {
    && Named(component)
    && LookupDirectory(env(time), parent, component.name.value) == Some(child)
    && child !in env(time + 1).denied && child !in env(time + 1).reparse
  }

  function RootOf(w: World, letter: char): (node: Option<nat>)
  {
    if letter in w.roots && w.roots[letter] !in w.denied then Some(w.roots[letter]) else None
  }

  /** How many system calls a successful walk makes. */
  function WalkCalls(path: seq<Component>): (n: nat)
  {
    if |path| < 2 then 0 else 2 * |path| - 3
  }

  /** In one run of the world a walk goes through one sequence of objects. */
  lemma {:induction false} ChainIsUnique(
    env: Interference, path: seq<Component>, start: nat, a: seq<nat>, b: seq<nat>, i: nat)
    requires VerifiedPrefix(env, path, start, a) && VerifiedPrefix(env, path, start, b) && i < |a| && i < |b|
    ensures a[i] == b[i]
  {
    if i > 0 {
      ChainIsUnique(env, path, start, a, b, i - 1);
      assert VerifiedStep(env, path[i + 1], start + 2 * i - 1, a[i - 1], a[i]);
      assert VerifiedStep(env, path[i + 1], start + 2 * i - 1, b[i - 1], b[i]);
    }
  }

  ghost predicate NoStep(env: Interference, component: Component, time: nat, parent: nat) {
    forall child :: !VerifiedStep(env, component, time, parent, child)
  }

  /** No walk of the path gets to its end. */
  ghost predicate NoChain(env: Interference, path: seq<Component>, start: nat) {
    forall chain :: !VerifiedChain(env, path, start, chain)
  }

  /** A walk whose next step fails gets to no end. */
  lemma StuckWalk(env: Interference, path: seq<Component>, start: nat, chain: seq<nat>)
    requires VerifiedPrefix(env, path, start, chain) && |chain| < |path| - 1
    requires NoStep(env, path[|chain| + 1], start + 2 * |chain| - 1, chain[|chain| - 1])
    ensures NoChain(env, path, start)
  {
    forall full ensures !VerifiedChain(env, path, start, full) {
      if VerifiedChain(env, path, start, full) {
        var i := |chain|;
        ChainIsUnique(env, path, start, chain, full, i - 1);
      }
    }
  }

  /** A verified step makes the chain one longer. */
  lemma LongerChain(env: Interference, path: seq<Component>, start: nat, chain: seq<nat>, child: nat)
    requires VerifiedPrefix(env, path, start, chain) && |chain| < |path| - 1
    requires VerifiedStep(env, path[|chain| + 1], start + 2 * |chain| - 1, chain[|chain| - 1], child)
    ensures VerifiedPrefix(env, path, start, chain + [child])
  {
  }

  /** A file can be created under a name that is free. */
  predicate CanCreate(w: World, parent: nat, name: string) {
    FitsUnicodeString(name) && (parent, name) !in w.children && parent !in w.denied
  }

  /** A verified chain leads from the volume root to this object. */
  ghost predicate Leads(env: Interference, path: seq<Component>, start: nat, node: nat) {
    exists chain :: VerifiedChain(env, path, start, chain) && chain[|chain| - 1] == node
  }

  /** A file of that name is found, then seen not to be a reparse point, then deletable. */
  predicate CanDelete(env: Interference, time: nat, parent: nat, name: string) {
    var file := LookupFile(env(time), parent, name);
    && file.Some? && file.value !in env(time + 1).denied && file.value !in env(time + 1).reparse
    && file.value !in env(time + 2).denied
  }

  /** In one run of the world a path leads to one object. */
  lemma LeadsOnce(env: Interference, path: seq<Component>, start: nat, chain: seq<nat>)
    requires VerifiedChain(env, path, start, chain)
    ensures forall node :: Leads(env, path, start, node) <==> node == chain[|chain| - 1]
  {
    forall node | Leads(env, path, start, node) ensures node == chain[|chain| - 1] {
      var full :| VerifiedChain(env, path, start, full) && full[|full| - 1] == node;
      ChainIsUnique(env, path, start, full, chain, |chain| - 1);
    }
  }

  // ----- the system calls -----

  /** The process's side: how many system calls it made, its open handles, what it did to files. */
  class Process {
    const env: Interference
    var now: nat
    var openHandles: nat
    var created: map<(nat, string), seq<byte>>
    var deleted: set<nat>

    constructor (env: Interference)
      ensures this.env == env && now == 0 && openHandles == 0 && created == map[] && deleted == {}
    {
      this.env := env;
      now, openHandles, created, deleted := 0, 0, map[], {};
    }

    method OpenRoot(letter: char) returns (r: Result<nat, WalkError>)
      modifies this`now, this`openHandles
      ensures now == old(now) + 1
      ensures r == match RootOf(env(old(now)), letter) case Some(node) => Ok(node) case None => Err(OpenFailed)
      ensures openHandles == old(openHandles) + if r.Ok? then 1 else 0
    {
      var w := env(now);
      now := now + 1;
      if letter !in w.roots || w.roots[letter] in w.denied {
        return Err(OpenFailed);
      }
      openHandles := openHandles + 1;
      return Ok(w.roots[letter]);
    }

    method OpenDirectory(parent: nat, name: string) returns (r: Result<nat, WalkError>)
      modifies this`now, this`openHandles
      ensures now == old(now) + 1
      ensures var node := LookupDirectory(env(old(now)), parent, name);
              r == if node.Some? then Ok(node.value) else Err(OpenFailed)
      ensures openHandles == old(openHandles) + if r.Ok? then 1 else 0
    {
      var found := LookupDirectory(env(now), parent, name);
      now := now + 1;
      if found.None? {
        return Err(OpenFailed);
      }
      openHandles := openHandles + 1;
      return Ok(found.value);
    }

    /** `refuse_reparse_point`: the attributes come from the open handle, not from the path. */
    method RefuseReparsePoint(node: nat) returns (r: Result<(), WalkError>)
      modifies this`now
      ensures now == old(now) + 1
      ensures r.Ok? <==> node !in env(old(now)).denied && node !in env(old(now)).reparse
      ensures r.Err? ==> r.error == if node in env(old(now)).denied then QueryFailed else ReparsePoint
    {
      var w := env(now);
      now := now + 1;
      if node in w.denied {
        return Err(QueryFailed);
      }
      if node in w.reparse {
        return Err(ReparsePoint);
      }
      return Ok(());
    }

    method Close()
      requires openHandles > 0
      modifies this`openHandles
      ensures openHandles == old(openHandles) - 1
    {
      openHandles := openHandles - 1;
    }

    /** One turn of the walk: open the next name relative to `current`, check it, and let go of `current`. */
    method Descend(current: nat, component: Component) returns (r: Result<nat, WalkError>)
      requires openHandles > 0
      modifies this`now, this`openHandles
      ensures r.Ok? ==> now == old(now) + 2 && VerifiedStep(env, component, old(now), current, r.value)
      ensures r.Err? ==> NoStep(env, component, old(now), current) && !r.error.WriteFailed?
      ensures r.Err? ==> r.error in {DotComponent, NotUnicode, OpenFailed, QueryFailed, ReparsePoint}
      ensures r == Err(DotComponent) <==> !component.Normal?
      ensures r == Err(NotUnicode) <==> component.Normal? && component.name.None?
      ensures openHandles == old(openHandles) - if r.Ok? then 0 else 1
    {
      if !component.Normal? {
        Close();
        return Err(DotComponent);
      }
      if component.name.None? {
        Close();
        return Err(NotUnicode);
      }
      var next := OpenDirectory(current, component.name.value);
      if next.Err? {
        Close();
        return next;
      }
      var plain := RefuseReparsePoint(next.value);
      if plain.Err? {
        Close();
        Close();
        return Err(plain.error);
      }
      Close();
      return next;
    }

    /**
     `open_directory_chain`: succeeds exactly if a verified chain leads to the end of the path, and
     then returns its last object; at most that handle stays open.
     */
    method OpenDirectoryChain(path: seq<Component>) returns (r: Result<nat, WalkError>, ghost chain: seq<nat>)
      modifies this`now, this`openHandles
      ensures r.Ok? ==>
                && VerifiedChain(env, path, old(now), chain) && r.value == chain[|chain| - 1]
                && now == old(now) + WalkCalls(path)
      ensures r.Err? ==> NoChain(env, path, old(now)) && !r.error.WriteFailed?
      ensures r == Err(UnsupportedPrefix) <==> |path| > 0 && path[0].OtherPrefix?
      ensures r == Err(NotAbsolute) <==> !Absolute(path) && !(|path| > 0 && path[0].OtherPrefix?)
      ensures openHandles == old(openHandles) + if r.Ok? then 1 else 0
    {
      chain := [];
      if |path| == 0 || !(path[0].Drive? || path[0].OtherPrefix?) {
        return Err(NotAbsolute), [];
      }
      if path[0].OtherPrefix? {
        return Err(UnsupportedPrefix), [];
      }
      if |path| == 1 || !path[1].RootDir? {
        return Err(NotAbsolute), [];
      }
      r := OpenRoot(path[0].letter);
      if r.Err? {
        return;
      }
      var current := r.value;
      chain := [current];
      for i := 2 to |path|
        invariant |chain| == i - 1 && now == old(now) + 2 * i - 3
        invariant VerifiedPrefix(env, path, old(now), chain) && current == chain[i - 2]
        invariant openHandles == old(openHandles) + 1
      {
        r := Descend(current, path[i]);
        if r.Err? {
          StuckWalk(env, path, old(now), chain);
          return;
        }
        LongerChain(env, path, old(now), chain, r.value);
        current := r.value;
        chain := chain + [current];
      }
      r := Ok(current);
    }

    /** NtCreateFile with FILE_CREATE: only a name that is not there yet, looked up relative to the handle. */
    method CreateFile(parent: nat, name: string) returns (ok: bool)
      modifies this`now, this`openHandles, this`created
      ensures now == old(now) + 1
      ensures ok <==> CanCreate(env(old(now)), parent, name)
      ensures openHandles == old(openHandles) + if ok then 1 else 0
      ensures created == if ok then old(created)[(parent, name) := []] else old(created)
    {
      var w := env(now);
      now := now + 1;
      if !CanCreate(w, parent, name) {
        return false;
      }
      openHandles := openHandles + 1;
      created := created[(parent, name) := []];
      return true;
    }

    /**
     WriteFile on the new file, which nobody else can open: `answer` says how much of the rest it
     took, None that it failed.
     */
    method WriteFile(file: (nat, string), rest: seq<byte>, answer: Option<nat>) returns (written: Option<nat>)
      requires file in created
      modifies this`now, this`created
      ensures now == old(now) + 1
      ensures written.None? <==> answer.None?
      ensures written.Some? ==>
                && written.value <= |rest|
                && created == old(created)[file := old(created)[file] + rest[..written.value]]
      ensures written.Some? && answer.value > 0 && rest != [] ==> written.value > 0
      ensures written.None? ==> created == old(created)
    {
      now := now + 1;
      if answer.None? {
        return None;
      }
      var n := if answer.value < |rest| then answer.value else |rest|;
      created := created[file := created[file] + rest[..n]];
      return Some(n);
    }

    /** The write loop; the k-th call gets `answers[k]`, and calls beyond the list take everything. */
    method WriteAll(file: (nat, string), content: seq<byte>, answers: seq<Option<nat>>)
      returns (ok: bool, ghost written: seq<byte>)
      requires file in created && created[file] == []
      modifies this`now, this`created
      ensures written <= content && created == old(created)[file := written]
      ensures ok <==> written == content
    {
      var done := 0;
      var k := 0;
      while done < |content|
        invariant done <= |content|
        invariant created == old(created)[file := content[..done]]
        decreases |content| - done
      {
        var rest := content[done..];
        var answer := if k < |answers| then answers[k] else Some(|content|);
        k := k + 1;
        var n := WriteFile(file, rest, answer);
        if n.None? || n.value == 0 {
          if n.Some? {
            assert content[..done] + rest[..0] == content[..done];
          }
          return false, content[..done];
        }
        assert content[..done] + rest[..n.value] == content[..done + n.value];
        done := done + n.value;
      }
      assert content[..done] == content;
      return true, content;
    }

    /** Creating and writing the file, and closing it, in a directory that is open. */
    method CreateIn(parent: nat, name: string, content: seq<byte>, answers: seq<Option<nat>>)
      returns (r: Result<(), WalkError>, ghost written: seq<byte>)
      modifies this`now, this`openHandles, this`created
      ensures openHandles == old(openHandles)
      ensures r == Err(OpenFailed) <==> !CanCreate(env(old(now)), parent, name)
      ensures r == Err(OpenFailed) ==> created == old(created)
      ensures r != Err(OpenFailed) ==>
                && created == old(created)[(parent, name) := written] && written <= content
                && (r == Ok(()) <==> written == content) && (r == Err(WriteFailed) <==> written != content)
    {
      var ok := CreateFile(parent, name);
      if !ok {
        return Err(OpenFailed), [];
      }
      var complete;
      complete, written := WriteAll((parent, name), content, answers);
      Close();
      r := if complete then Ok(()) else Err(WriteFailed);
    }

    /**
     `create_new_no_follow`: a file is created exactly if the name is plain, a verified chain leads to the
     end of the path and the name is free there. It is the only one, in the last object of the chain, and
     it holds exactly `content` on success, less of it after a failed write.
     */
    method CreateNewNoFollow(path: seq<Component>, name: string, content: seq<byte>, answers: seq<Option<nat>>)
      returns (r: Result<(), WalkError>, ghost chain: seq<nat>, ghost written: seq<byte>)
      modifies this`now, this`openHandles, this`created
      ensures openHandles == old(openHandles)
      ensures r.Ok? || r.error.WriteFailed?
              <==> PlainName(name) && exists node ::
                     Leads(env, path, old(now), node) && CanCreate(env(old(now) + WalkCalls(path)), node, name)
      ensures r.Ok? || r.error.WriteFailed? ==>
                && VerifiedChain(env, path, old(now), chain)
                && created == old(created)[(chain[|chain| - 1], name) := written]
                && written <= content && (r.Ok? <==> written == content)
      ensures r.Err? && !r.error.WriteFailed? ==> created == old(created)
    {
      var plain := ValidateFileName(name);
      if !plain {
        return Err(InvalidName), [], [];
      }
      var parent;
      parent, chain := OpenDirectoryChain(path);
      if parent.Err? {
        return Err(parent.error), chain, [];
      }
      LeadsOnce(env, path, old(now), chain);
      assert Leads(env, path, old(now), parent.value);
      r, written := CreateIn(parent.value, name, content, answers);
      Close();
    }

    /** Finding, checking and deleting the file in a directory that is open; its handle is held until then. */
    method DeleteIn(parent: nat, name: string) returns (r: Result<(), WalkError>)
      modifies this`now, this`openHandles, this`deleted
      ensures openHandles == old(openHandles)
      ensures r.Ok? <==> CanDelete(env, old(now), parent, name)
      ensures deleted == if r.Ok? then old(deleted) + {LookupFile(env(old(now)), parent, name).value} else old(deleted)
    {
      var file := LookupFile(env(now), parent, name);
      now := now + 1;
      if file.None? {
        return Err(OpenFailed);
      }
      openHandles := openHandles + 1;
      var regular := RefuseReparsePoint(file.value);
      if regular.Err? {
        Close();
        return Err(regular.error);
      }
      var w := env(now);
      now := now + 1;
      if file.value in w.denied {
        Close();
        return Err(DeleteFailed);
      }
      deleted := deleted + {file.value};
      Close();
      return Ok(());
    }

    /**
     `delete_no_follow`: it succeeds exactly if the path names a file inside a directory, the name is plain, a
     verified chain leads to the directory, and the file found there by its name is seen not to be a
     reparse point and can be deleted; it deletes that file and otherwise nothing.
     */
    method DeleteNoFollow(dir: Option<seq<Component>>, name: Option<string>)
      returns (r: Result<(), WalkError>, ghost chain: seq<nat>)
      modifies this`now, this`openHandles, this`deleted
      ensures openHandles == old(openHandles)
      ensures r.Ok?
              <==> dir.Some? && name.Some? && PlainName(name.value) && exists node ::
                     Leads(env, dir.value, old(now), node)
                     && CanDelete(env, old(now) + WalkCalls(dir.value), node, name.value)
      ensures r.Ok? ==>
                && VerifiedChain(env, dir.value, old(now), chain)
                && var file := LookupFile(env(old(now) + WalkCalls(dir.value)), chain[|chain| - 1], name.value);
                file.Some? && deleted == old(deleted) + {file.value}
      ensures r.Err? ==> deleted == old(deleted)
    {
      if dir.None? || name.None? {
        return Err(InvalidName), [];
      }
      var plain := ValidateFileName(name.value);
      if !plain {
        return Err(InvalidName), [];
      }
      var parent;
      parent, chain := OpenDirectoryChain(dir.value);
      if parent.Err? {
        return Err(parent.error), chain;
      }
      LeadsOnce(env, dir.value, old(now), chain);
      assert Leads(env, dir.value, old(now), parent.value);
      r := DeleteIn(parent.value, name.value);
      Close();
    }
  }
}
