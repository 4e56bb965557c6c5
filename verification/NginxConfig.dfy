/** Per-host nginx files: transactional writes, and the values that reach them. */
module NginxConfig {
  import opened Prelude
  import opened Text

  // ------------------------------------------------------------------------
  // The hosts directory
  // ------------------------------------------------------------------------

  type Confs = map<nat, string>

  datatype Temp = Temp(id: nat, tag: string)

  /** nginx includes `<id>.conf`; the temporary files beside them are invisible to it. */
  datatype Dir = Dir(confs: Confs, temps: map<Temp, string>)

  /** A file write takes place, or throws and leaves the file alone or with some text in it. */
  datatype Write = Done | Failed(left: Option<string>)

  /** What the file system and nginx do during one call. */
  datatype Io = Io(
    prepare: bool, // reading the previous file and rendering the new text succeed
    write: Write, // of the temporary file
    rename: bool,
    nginxRuns: bool, // `nginx -t` starts
    restore: Write, // of the previous text
    unlink: bool,
    reload: bool)

  datatype Call =
    | WriteHost(id: nat, text: string, tag: string, io: Io)
    | RemoveHost(id: nat, io: Io)

  datatype Reply = Deployed | ReloadFailed | Invalid | IoError | Removed | Absent

  /** What is in a file that held `before`, after an attempt to write `text` to it. */
  function After(before: Option<string>, text: string, w: Write): Option<string> {
    match w
    case Done => Some(text)
    case Failed(left) => if left.Some? then left else before
  }

  function Find(confs: Confs, id: nat): Option<string> {
    if id in confs then Some(confs[id]) else None
  }

  function Set(confs: Confs, id: nat, text: Option<string>): Confs {
    if text.Some? then confs[id := text.value] else confs - {id}
  }

  /** The rollback: the previous text is written back, or the new file is deleted. */
  function Undo(confs: Confs, id: nat, previous: Option<string>, io: Io): Confs {
    if previous.Some? then Set(confs, id, After(Find(confs, id), previous.value, io.restore))
    else if io.unlink then confs - {id}
    else confs
  }

  /** The new file is in place; the test decides. */
  predicate Written(io: Io) {
    io.prepare && io.write.Done? && io.rename
  }

  predicate Accepted(confs: Confs, call: Call, passes: Confs -> bool)
    requires call.WriteHost?
  {
    call.io.nginxRuns && passes(confs[call.id := call.text])
  }

  /** One call: its reply, and the files that nginx reads afterwards. */
  function Step(confs: Confs, call: Call, passes: Confs -> bool): (Reply, Confs) {
    match call
    case WriteHost(id, text, _, io) =>
      if !Written(io) then (IoError, confs)
      else if Accepted(confs, call, passes) then
        (if io.reload then Deployed else ReloadFailed, confs[id := text])
      else
        (if id in confs && io.restore.Failed? then IoError else Invalid,
         Undo(confs[id := text], id, Find(confs, id), io))
    case RemoveHost(id, io) =>
      if id !in confs then (Absent, confs)
      else if !io.unlink then (IoError, confs)
      else (Removed, confs - {id})
  }

  // ------------------------------------------------------------------------
  // One call is a transaction
  // ------------------------------------------------------------------------

  /** The undo, should it be needed, puts the old text back or deletes the new file. */
  predicate UndoWorks(confs: Confs, call: Call) {
    call.WriteHost? ==> if call.id in confs then call.io.restore.Done? else call.io.unlink
  }

  /** What a call that gives this reply promises about the files that nginx reads. */
  function Promised(confs: Confs, call: Call, reply: Reply): Confs {
    match call
    case WriteHost(id, text, _, _) => if reply.Deployed? || reply.ReloadFailed? then confs[id := text] else confs
    case RemoveHost(id, _) => if reply.Removed? then confs - {id} else confs
  }

  /** The restoring write fails harmlessly: over equal texts, or leaving just the old text. */
  predicate FailsHarmlessly(confs: Confs, call: Call) {
    && call.WriteHost? && call.id in confs
    && match call.io.restore
       case Done => false
       case Failed(None) => call.text == confs[call.id]
       case Failed(Some(left)) => left == confs[call.id]
  }

  /** Every call keeps its promise, except a rejected write whose rollback fails. */
  lemma TransactionalExactly(confs: Confs, call: Call, passes: Confs -> bool)
    ensures var (reply, after) := Step(confs, call, passes);
            after == Promised(confs, call, reply) <==>
            (call.WriteHost? && Written(call.io) && !Accepted(confs, call, passes)
             ==> UndoWorks(confs, call) || FailsHarmlessly(confs, call))
  {
    if call.WriteHost? {
      var changed := confs[call.id := call.text];
      assert call.id !in confs ==> changed - {call.id} == confs && call.id in changed;
      assert call.id in confs ==> changed[call.id := confs[call.id]] == confs;
    }
  }

  /** The replies to a write, by what went wrong first, and what nginx reads after each. */
  lemma WriteRepliesExactly(confs: Confs, id: nat, text: string, tag: string, io: Io, passes: Confs -> bool)
    ensures var (reply, after) := Step(confs, WriteHost(id, text, tag, io), passes);
            var changed := confs[id := text];
            var written := io.prepare && io.write.Done? && io.rename;
            var passed := io.nginxRuns && passes(changed);
            if !written then reply == IoError && after == confs
            else if passed then reply == (if io.reload then Deployed else ReloadFailed) && after == changed
            else if id in confs then
              match io.restore
              case Done => reply == Invalid && after == confs
              case Failed(None) => reply == IoError && after == changed
              case Failed(Some(left)) => reply == IoError && after == confs[id := left]
            else reply == Invalid && after == if io.unlink then confs else changed
  {
    var changed := confs[id := text];
    assert id !in confs ==> changed - {id} == confs;
    assert id in confs ==> changed[id := confs[id]] == confs;
    if io.restore.Failed? && io.restore.left.Some? {
      assert changed[id := io.restore.left.value] == confs[id := io.restore.left.value];
    }
  }

  /** A removal deletes the file that is there, or reports that it could not. */
  lemma RemoveRepliesExactly(confs: Confs, id: nat, io: Io, passes: Confs -> bool)
    ensures Step(confs, RemoveHost(id, io), passes) ==
            if id in confs && !io.unlink then (IoError, confs)
            else (if id in confs then Removed else Absent, confs - {id})
  {
    assert id !in confs ==> confs - {id} == confs;
  }

  /** No call touches another host's file. */
  lemma OthersAreUntouched(confs: Confs, call: Call, passes: Confs -> bool)
    ensures Step(confs, call, passes).1 - {call.id} == confs - {call.id}
  {
  }

  // ------------------------------------------------------------------------
  // Runs
  // ------------------------------------------------------------------------

  function Exec(confs: Confs, run: seq<Call>, passes: Confs -> bool): Confs
    decreases |run|
  {
    if run == [] then confs else Exec(Step(confs, run[0], passes).1, run[1..], passes)
  }

  ghost predicate UndosWork(confs: Confs, run: seq<Call>, passes: Confs -> bool)
    decreases |run|
  {
    run == [] || (UndoWorks(confs, run[0]) && UndosWork(Step(confs, run[0], passes).1, run[1..], passes))
  }

  ghost predicate ClosedUnderRemoval(passes: Confs -> bool) {
    forall confs: Confs, id: nat :: passes(confs) ==> passes(confs - {id})
  }

  /** nginx can be restarted between any two calls: its configuration always passes the test. */
  lemma {:induction false} RunsStayValid(confs: Confs, run: seq<Call>, passes: Confs -> bool)
    requires passes(confs) && ClosedUnderRemoval(passes) && UndosWork(confs, run, passes)
    ensures passes(Exec(confs, run, passes))
    decreases |run|
  {
    if run == [] {
    } else {
      TransactionalExactly(confs, run[0], passes);
      RunsStayValid(Step(confs, run[0], passes).1, run[1..], passes);
    }
  }

  /** A change that took effect. */
  datatype Change = Change(id: nat, text: Option<string>)

  function ChangeOf(call: Call, reply: Reply): seq<Change> {
    match call
    case WriteHost(id, text, _, _) =>
      if reply.Deployed? || reply.ReloadFailed? then [Change(id, Some(text))] else []
    case RemoveHost(id, _) => if reply.Removed? then [Change(id, None)] else []
  }

  /** The changes that a run reported as made. */
  function Changes(confs: Confs, run: seq<Call>, passes: Confs -> bool): seq<Change>
    decreases |run|
  {
    if run == [] then []
    else
      var (reply, after) := Step(confs, run[0], passes);
      ChangeOf(run[0], reply) + Changes(after, run[1..], passes)
  }

  /** The text that the last of the changes to a host gave it. */
  function LastChange(id: nat, changes: seq<Change>, before: Option<string>): Option<string> {
    if changes == [] then before
    else LastChange(id, changes[1..], if changes[0].id == id then changes[0].text else before)
  }

  /** Each host's file is the last reported change to it: calls that fail leave no trace. */
  lemma {:induction false} FilesAreLastChanges(confs: Confs, run: seq<Call>, passes: Confs -> bool, id: nat)
    requires UndosWork(confs, run, passes)
    ensures Find(Exec(confs, run, passes), id) ==
            LastChange(id, Changes(confs, run, passes), Find(confs, id))
    decreases |run|
  {
    if run == [] {
    } else {
      var (reply, after) := Step(confs, run[0], passes);
      TransactionalExactly(confs, run[0], passes);
      FilesAreLastChanges(after, run[1..], passes, id);
      var rest := Changes(after, run[1..], passes);
      var made := ChangeOf(run[0], reply);
      assert made != [] ==> (made + rest)[1..] == rest;
      assert made == [] ==> made + rest == rest;
    }
  }

  // ------------------------------------------------------------------------
  // The directory, updated in place
  // ------------------------------------------------------------------------

  class HostsDirectory {
    var confs: Confs
    var temps: map<Temp, string>

    /** An exclusive temporary file; false when the write throws. */
    method WriteTemp(temp: Temp, text: string, w: Write) returns (ok: bool)
      modifies `temps
      ensures ok == w.Done?
      ensures ok ==> temps == old(temps)[temp := text]
      ensures !ok ==> temps - {temp} == old(temps) - {temp}
    {
      match w
      case Done =>
        temps := temps[temp := text];
        ok := true;
      case Failed(left) =>
        if left.Some? {
          temps := temps[temp := left.value];
        }
        ok := false;
    }

    /** Undoes the write; false when restoring throws. A failed deletion is swallowed. */
    method Rollback(id: nat, previous: Option<string>, io: Io) returns (ok: bool)
      modifies `confs
      ensures confs == Undo(old(confs), id, previous, io)
      ensures ok == (previous.Some? ==> io.restore.Done?)
    {
      ok := true;
      if previous.Some? {
        match io.restore
        case Done =>
          confs := confs[id := previous.value];
        case Failed(left) =>
          if left.Some? {
            confs := confs[id := left.value];
          }
          ok := false;
      } else if io.unlink {
        confs := confs - {id};
      }
    }

    method WriteHostConfig(id: nat, text: string, tag: string, io: Io, passes: Confs -> bool)
      returns (reply: Reply)
      modifies this
      ensures (reply, confs) == Step(old(confs), WriteHost(id, text, tag, io), passes)
      ensures temps - {Temp(id, tag)} == old(temps) - {Temp(id, tag)}
      ensures Written(io) ==> Temp(id, tag) !in temps
    {
      if !io.prepare {
        return IoError;
      }
      var previous := Find(confs, id);
      var temp := Temp(id, tag);
      var written := WriteTemp(temp, text, io.write);
      if !written || !io.rename {
        return IoError;
      }
      confs, temps := confs[id := temps[temp]], temps - {temp};
      if !(io.nginxRuns && passes(confs)) {
        var undone := Rollback(id, previous, io);
        return if undone then Invalid else IoError;
      }
      return if io.reload then Deployed else ReloadFailed;
    }

    /** A failed reload after a removal is only logged. */
    method RemoveHostConfig(id: nat, io: Io) returns (reply: Reply)
      modifies `confs
      ensures (reply, confs) == Step(old(confs), RemoveHost(id, io), _ => true)
    {
      if id !in confs {
        return Absent;
      }
      if !io.unlink {
        return IoError;
      }
      confs := confs - {id};
      return Removed;
    }
  }

  // ------------------------------------------------------------------------
  // Values that reach the files
  // ------------------------------------------------------------------------

  const MAX_NAME: nat := 253

  predicate IsAlphanumeric(c: char) {
    'A' <= c <= 'Z' || 'a' <= c <= 'z' || '0' <= c <= '9'
  }

  predicate HostChar(c: char) {
    IsAlphanumeric(c) || c == '.' || c == '_' || c == ':' || c == '-'
  }

  predicate HeaderChar(c: char) {
    HostChar(c) || c == '[' || c == ']'
  }

  predicate PathChar(c: char) {
    !IsSpace(c) && c !in {'{', '}', ';', '"', '\'', '\\'}
  }

  /** Nothing that is let through ends a directive, opens or closes a block, quotes or comments. */
  lemma CharsAreHarmless(c: char)
    ensures HeaderChar(c) || HostChar(c) ==> c !in ";{}\"'\\#$ \t\r\n"
    ensures PathChar(c) ==> c !in ";{}\"'\\ \t\r\n"
    ensures 'A' <= c <= 'Z' || 'a' <= c <= 'z' || '0' <= c <= '9' || c in "._:-" ==> HostChar(c) && HeaderChar(c)
    ensures HeaderChar(c) && !HostChar(c) <==> c in "[]"
  {
  }

  function Cut(s: string): string {
    if |s| > MAX_NAME then s[..MAX_NAME] else s
  }

  function SanitiseHeaderValue(value: string): string {
    Cut(Filter(value, HeaderChar))
  }

  function SanitiseForwardHost(value: string): string {
    var cleaned := Cut(Filter(value, HostChar));
    if "[" <= cleaned || ':' !in cleaned then cleaned else "[" + cleaned + "]"
  }

  function SanitisePathPrefix(value: string): string {
    var cleaned := Filter(value, PathChar);
    if "/" <= cleaned then cleaned else "/" + cleaned
  }

  predicate SafeHeaderValue(s: string) {
    |s| <= MAX_NAME && forall c <- s :: HeaderChar(c)
  }

  predicate SafeName(s: string) {
    |s| <= MAX_NAME && forall c <- s :: HostChar(c)
  }

  /** A name without a colon, or a bracketed one with a colon: no ambiguity before `:port`. */
  predicate SafeForwardHost(s: string) {
    || (SafeName(s) && ':' !in s)
    || (|s| > 2 && s[0] == '[' && s[|s| - 1] == ']' && SafeName(s[1..|s| - 1]) && ':' in s[1..|s| - 1])
  }

  predicate SafePath(s: string) {
    "/" <= s && forall c <- s :: PathChar(c)
  }

  lemma CutIsSafe(s: string, p: char -> bool)
    ensures |Cut(Filter(s, p))| <= MAX_NAME && forall c <- Cut(Filter(s, p)) :: p(c)
    ensures Cut(Filter(s, p)) == s <==> |s| <= MAX_NAME && forall c <- s :: p(c)
  {
    FilterKeeps(s, p);
    FilterFixes(s, p);
  }

  /** The result is safe, and safe values, so also results, pass unchanged. */
  lemma HeaderValueIsSafe(value: string)
    ensures SafeHeaderValue(SanitiseHeaderValue(value))
    ensures SanitiseHeaderValue(value) == value <==> SafeHeaderValue(value)
    ensures SanitiseHeaderValue(SanitiseHeaderValue(value)) == SanitiseHeaderValue(value)
  {
    CutIsSafe(value, HeaderChar);
    CutIsSafe(SanitiseHeaderValue(value), HeaderChar);
  }

  lemma ForwardHostResult(value: string)
    ensures SafeForwardHost(SanitiseForwardHost(value))
  {
    CutIsSafe(value, HostChar);
    var cleaned := Cut(Filter(value, HostChar));
    assert !HostChar('[');
    assert ("[" + cleaned + "]")[1..|cleaned| + 1] == cleaned;
  }

  lemma BracketsAreStripped(inner: string)
    ensures Filter("[" + inner + "]", HostChar) == Filter(inner, HostChar)
  {
    FilterConcat("[" + inner, "]", HostChar);
    FilterConcat("[", inner, HostChar);
  }

  lemma ForwardHostKeeps(value: string)
    requires SafeForwardHost(value)
    ensures SanitiseForwardHost(value) == value
  {
    if SafeName(value) && ':' !in value {
      CutIsSafe(value, HostChar);
    } else {
      hide Filter;
      var inner := value[1..|value| - 1];
      assert value == "[" + inner + "]";
      BracketsAreStripped(inner);
      CutIsSafe(inner, HostChar);
      assert inner[0] in inner && inner[0] != '[';
    }
  }

  lemma ForwardHostIsSafe(value: string)
    ensures SafeForwardHost(SanitiseForwardHost(value))
    ensures SanitiseForwardHost(value) == value <==> SafeForwardHost(value)
    ensures SanitiseForwardHost(SanitiseForwardHost(value)) == SanitiseForwardHost(value)
  {
    ForwardHostResult(value);
    ForwardHostKeeps(SanitiseForwardHost(value));
    if SafeForwardHost(value) {
      ForwardHostKeeps(value);
    }
  }

  lemma PathPrefixIsSafe(value: string)
    ensures SafePath(SanitisePathPrefix(value))
    ensures SanitisePathPrefix(value) == value <==> SafePath(value)
    ensures SanitisePathPrefix(SanitisePathPrefix(value)) == SanitisePathPrefix(value)
  {
    FilterKeeps(value, PathChar);
    FilterFixes(value, PathChar);
    assert PathChar('/');
    FilterFixes(SanitisePathPrefix(value), PathChar);
  }
}
