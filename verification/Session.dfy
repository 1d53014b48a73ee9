/** The transfer lifecycle of one FTP session: its state, the turns of its main
    loop, and what every run keeps (libwzd-core/wzd_ClientThread.c, wzd_data.c).

    What the network, the file system, the permission checks and the hooks decide
    is part of a turn. A file is named by the number of files opened before it, so
    that two openings are never confused. */
module Session {
  import opened Common

  datatype State = Unknown | Command | Xfer

  datatype Token = TokUnknown | TokRetr | TokStor | TokMkd | TokRnfr | TokDele

  const NONE := -1

  /** The fields of wzd_context_t that transfers use; `closed` counts how often each
      file was closed. */
  datatype Session = Session(state: State, token: Token, file: int, dataSocket: int, pasvSocket: int,
                             dataport: nat, exiting: bool, fileCount: nat, closed: multiset<int>)

  /** How waitconnect or waitaccept ends; `lost` if it closed the passive socket. */
  datatype Wait = Refused(lost: bool) | Connected(sock: nat)

  /** One turn of the main loop. `allowed`: the user has the right. `accepted`: every
      check on the argument and every hook passed. `reached`: the command got as far
      as changing the context. */
  datatype Turn =
    | Transfer(upload: bool, allowed: bool, accepted: bool, opens: bool, wait: Wait)  // RETR, STOR, APPE
    | List(allowed: bool, accepted: bool, wait: Wait)                                 // LIST, NLST, MLSD
    | Abor
    | Mkd(reached: bool)
    | Rnfr(reached: bool)
    | Rnto(reached: bool)
    | Dele(reached: bool)
    | Status(reached: bool, completed: bool)   // MLST, STAT
    | Pasv(sock: Option<nat>)                  // PASV, EPSV, CPSV
    | Port(port: Option<nat>)                  // PORT, EPRT
    | Quit
    | Other                                    // a command that touches none of these fields
    | Data(more: bool)                         // the data connection is ready; `more` unless it ended or failed
    | Tick(dataLate: bool, idleLate: bool)     // nothing is ready
    | Disconnect

  /** The context when the main loop starts: after context_init and a login. */
  const Fresh := Session(Command, TokUnknown, NONE, NONE, NONE, 0, false, 0, multiset{})

  // ----- One turn -----

  function CloseFile(s: Session): Session { s.(closed := s.closed + multiset{s.file}, file := NONE) }

  /** data_end_transfer. */
  function EndTransfer(s: Session): Session {
    CloseFile(s).(state := Unknown, token := TokUnknown, dataSocket := NONE, pasvSocket := NONE)
  }

  predicate NoDataConnection(s: Session) { s.pasvSocket == NONE && s.dataport == 0 }

  predicate Moving(s: Session) { s.token.TokRetr? || s.token.TokStor? }

  function StartTransfer(s: Session, t: Turn): Session
    requires t.Transfer?
  {
    if !t.allowed || NoDataConnection(s) || s.state.Xfer? || !t.accepted || !t.opens then s
    else
      var s' := s.(fileCount := s.fileCount + 1);
      match t.wait
      case Refused(lost) =>
        s'.(closed := s.closed + multiset{s.fileCount}, pasvSocket := if lost then NONE else s.pasvSocket)
      case Connected(sock) =>
        s'.(state := Xfer, token := if t.upload then TokStor else TokRetr, file := s.fileCount, dataSocket := sock,
            pasvSocket := if s.pasvSocket == NONE then NONE else sock)
  }

  function ListDirectory(s: Session, t: Turn): Session
    requires t.List?
  {
    if !t.allowed || NoDataConnection(s) || s.state.Xfer? || !t.accepted then s
    else
      match t.wait
      case Refused(lost) => s.(pasvSocket := if lost then NONE else s.pasvSocket)
      case Connected(_) => s.(state := Unknown, dataSocket := NONE, pasvSocket := NONE)
  }

  function Abort(s: Session): Session {
    if s.file != NONE && Moving(s) then EndTransfer(s)
    else s.(pasvSocket := if s.dataSocket != s.pasvSocket then NONE else s.pasvSocket)
  }

  function MoveData(s: Session, more: bool): Session { if Moving(s) && !more then EndTransfer(s) else s }

  function CheckTimeout(s: Session, dataLate: bool, idleLate: bool): Session {
    if Moving(s) then (if dataLate then EndTransfer(s) else s)
    else if idleLate then s.(exiting := true) else s
  }

  function Step(s: Session, t: Turn): Session {
    match t
    case Transfer(_, _, _, _, _) => StartTransfer(s, t)
    case List(_, _, _) => ListDirectory(s, t)
    case Abor => Abort(s)
    case Mkd(reached) => if reached then s.(token := TokMkd, file := NONE) else s
    case Rnfr(reached) => if reached then s.(token := TokRnfr, file := NONE) else s
    case Rnto(reached) => if reached && s.token.TokRnfr? then s.(token := TokUnknown, file := NONE) else s
    case Dele(reached) => if reached then s.(token := TokUnknown) else s
    case Status(reached, completed) => if reached then s.(state := if completed then Unknown else Command) else s
    case Pasv(sock) => s.(pasvSocket := if sock.Some? then sock.value else NONE)
    case Port(port) => s.(pasvSocket := NONE, dataport := if port.Some? then port.value else s.dataport)
    case Quit => s.(exiting := true)
    case Other => s
    case Data(more) => MoveData(s, more)
    case Tick(dataLate, idleLate) => CheckTimeout(s, dataLate, idleLate)
    case Disconnect => s.(exiting := true)
  }

  /** The main loop over the turns it is given; it stops when the session is to exit. */
  function Run(s: Session, turns: seq<Turn>): Session
    decreases |turns|
  {
    if turns == [] || s.exiting then s else Run(Step(s, turns[0]), turns[1..])
  }

  /** client_die. */
  function Die(s: Session): Session {
    var s' := if s.file != NONE then EndTransfer(s) else s;
    s'.(dataSocket := NONE, pasvSocket := NONE)
  }

  // ----- What every run keeps -----

  /** How often file `f` is to have been closed: once, unless it is the open one. */
  function Closings(s: Session, f: int): nat {
    if 0 <= f < s.fileCount && f != s.file then 1 else 0
  }

  ghost predicate Accounted(s: Session) { forall f :: s.closed[f] == Closings(s, f) }

  /** A transfer is on exactly when there are a transfer token, a file and a data
      connection, and every other file was closed exactly once. */
  ghost predicate Inv(s: Session) {
    (s.state.Xfer? <==> Moving(s)) && (s.state.Xfer? <==> s.file != NONE) &&
      (s.state.Xfer? <==> s.dataSocket != NONE) &&
    (s.file != NONE ==> 0 <= s.file < s.fileCount) && Accounted(s)
  }

  /** The branches of data_set_fd that log a failed assertion or an invalid socket. */
  predicate AssertionFails(s: Session) { Moving(s) && (!s.state.Xfer? || s.dataSocket == NONE) }

  /** A command that overwrites the current action or the state in mid-transfer. */
  predicate Disturbs(s: Session, t: Turn) {
    s.state.Xfer? && (t.Mkd? || t.Rnfr? || t.Dele? || t.Status?) && t.reached
  }

  predicate Undisturbed(s: Session, turns: seq<Turn>)
    decreases |turns|
  {
    turns == [] || s.exiting || (!Disturbs(s, turns[0]) && Undisturbed(Step(s, turns[0]), turns[1..]))
  }

  /** The invariant holds between all turns of a run. */
  ghost predicate Throughout(s: Session, turns: seq<Turn>)
    decreases |turns|
  {
    Inv(s) && (turns == [] || s.exiting || Throughout(Step(s, turns[0]), turns[1..]))
  }

  lemma FreshInv()
    ensures Inv(Fresh)
  {
  }

  lemma EndKeeps(s: Session)
    requires Inv(s) && s.state.Xfer?
    ensures Inv(EndTransfer(s)) && EndTransfer(s).fileCount == s.fileCount
  {
    var s' := EndTransfer(s);
    forall f
      ensures s'.closed[f] == Closings(s', f)
    {
      assert s.closed[f] == Closings(s, f);
    }
  }

  lemma StartKeeps(s: Session, t: Turn)
    requires Inv(s) && t.Transfer?
    ensures Inv(StartTransfer(s, t))
  {
    var s' := StartTransfer(s, t);
    if s' != s {
      forall f
        ensures s'.closed[f] == Closings(s', f)
      {
        assert s.closed[f] == Closings(s, f);
      }
    }
  }

  /** A turn keeps the invariant exactly when it does not disturb a transfer. */
  lemma StepExact(s: Session, t: Turn)
    requires Inv(s)
    ensures Inv(Step(s, t)) <==> !Disturbs(s, t)
  {
    var s' := Step(s, t);
    if s.state.Xfer? { EndKeeps(s); }
    if t.Transfer? { StartKeeps(s, t); }
    assert s'.closed == s.closed && s'.fileCount == s.fileCount && s'.file == s.file ==> Accounted(s');
  }

  /** In every run the invariant holds between all turns if and only if no command
      disturbs a transfer. */
  lemma {:induction false} RunExact(s: Session, turns: seq<Turn>)
    requires Inv(s)
    ensures Throughout(s, turns) <==> Undisturbed(s, turns)
    decreases |turns|
  {
    if turns != [] && !s.exiting {
      StepExact(s, turns[0]);
      if !Disturbs(s, turns[0]) { RunExact(Step(s, turns[0]), turns[1..]); }
    }
  }

  // ----- No assertion of data_set_fd fails -----

  /** A command that resets the state while the token still says that data moves. */
  predicate Interrupts(s: Session, t: Turn) { Moving(s) && t.Status? && t.reached }

  predicate Uninterrupted(s: Session, turns: seq<Turn>)
    decreases |turns|
  {
    turns == [] || s.exiting || (!Interrupts(s, turns[0]) && Uninterrupted(Step(s, turns[0]), turns[1..]))
  }

  /** data_set_fd, called before each turn, fails no assertion. */
  predicate Quiet(s: Session, turns: seq<Turn>)
    decreases |turns|
  {
    turns == [] || s.exiting || (!AssertionFails(s) && Quiet(Step(s, turns[0]), turns[1..]))
  }

  lemma InterruptExact(s: Session, t: Turn)
    requires !AssertionFails(s)
    ensures AssertionFails(Step(s, t)) <==> Interrupts(s, t)
    ensures Interrupts(s, t) ==> Step(s, t).exiting == s.exiting
  {
  }

  lemma PrefixStep(s: Session, turns: seq<Turn>, k: nat)
    requires turns != [] && !s.exiting && k < |turns|
    ensures Run(s, turns[..k + 1]) == Run(Step(s, turns[0]), turns[1..][..k])
  {
    assert turns[..k + 1][1..] == turns[1..][..k];
  }

  lemma {:induction false} UninterruptedHolds(s: Session, turns: seq<Turn>, k: nat)
    requires !AssertionFails(s) && Uninterrupted(s, turns) && k <= |turns|
    ensures !AssertionFails(Run(s, turns[..k]))
    decreases k
  {
    hide AssertionFails, Interrupts, Step;
    if k > 0 && !s.exiting {
      InterruptExact(s, turns[0]);
      UninterruptedHolds(Step(s, turns[0]), turns[1..], k - 1);
      PrefixStep(s, turns, k - 1);
    }
  }

  lemma {:induction false} InterruptedFails(s: Session, turns: seq<Turn>) returns (k: nat)
    requires !AssertionFails(s) && !Uninterrupted(s, turns)
    ensures k <= |turns| && AssertionFails(Run(s, turns[..k]))
    decreases |turns|
  {
    hide AssertionFails, Interrupts, Step;
    var s' := Step(s, turns[0]);
    InterruptExact(s, turns[0]);
    var n := 0;
    if !AssertionFails(s') { n := InterruptedFails(s', turns[1..]); }
    PrefixStep(s, turns, n);
    k := n + 1;
  }

  /** Between all turns of a run, no assertion of data_set_fd fails if and only if no
      STAT or MLST resets the state while data moves. */
  lemma NoAssertionFails(s: Session, turns: seq<Turn>)
    requires !AssertionFails(s)
    ensures (forall k :: 0 <= k <= |turns| ==> !AssertionFails(Run(s, turns[..k]))) <==> Uninterrupted(s, turns)
  {
    hide AssertionFails, Run;
    if Uninterrupted(s, turns) {
      forall k | 0 <= k <= |turns|
        ensures !AssertionFails(Run(s, turns[..k]))
      {
        UninterruptedHolds(s, turns, k);
      }
    } else {
      var k := InterruptedFails(s, turns);
    }
  }

  /** data_set_fd does not look again after the last turn. */
  lemma {:induction false} QuietExact(s: Session, turns: seq<Turn>)
    requires !AssertionFails(s) && turns != []
    ensures Quiet(s, turns) <==> Uninterrupted(s, turns[..|turns| - 1])
    decreases |turns|
  {
    hide AssertionFails, Interrupts, Step;
    if |turns| > 1 && !s.exiting {
      var s', rest := Step(s, turns[0]), turns[1..];
      InterruptExact(s, turns[0]);
      assert turns[..|turns| - 1][1..] == rest[..|rest| - 1];
      if !AssertionFails(s') { QuietExact(s', rest); }
    }
  }

  // ----- Every file is closed exactly once -----

  /** The open file is one of those opened, a transfer has one, and every other file
      was closed exactly once. Weaker than `Inv`: DELE, STAT and MLST keep it. */
  ghost predicate FilesKept(s: Session) {
    (Moving(s) || s.state.Xfer? ==> s.file != NONE) && (s.file != NONE ==> 0 <= s.file < s.fileCount) && Accounted(s)
  }

  predicate Connects(s: Session, t: Turn) {
    t.Transfer? && t.allowed && !NoDataConnection(s) && !s.state.Xfer? && t.accepted && t.opens && t.wait.Connected?
  }

  /** A command that forgets the open file: a reached MKD or RNFR, a reached RNTO after
      RNFR, or a transfer that starts while the file of another is open. */
  predicate Drops(s: Session, t: Turn) {
    s.file != NONE &&
    (((t.Mkd? || t.Rnfr?) && t.reached) || (t.Rnto? && t.reached && s.token.TokRnfr?) || Connects(s, t))
  }

  predicate KeepsFiles(s: Session, turns: seq<Turn>)
    decreases |turns|
  {
    turns == [] || s.exiting || (!Drops(s, turns[0]) && KeepsFiles(Step(s, turns[0]), turns[1..]))
  }

  ghost predicate ClosedOnce(s: Session) { forall f :: s.closed[f] == if 0 <= f < s.fileCount then 1 else 0 }

  lemma InvKeepsFiles(s: Session)
    requires Inv(s)
    ensures FilesKept(s) && !AssertionFails(s)
  {
  }

  lemma KeptStep(s: Session, t: Turn)
    requires FilesKept(s) && !Drops(s, t)
    ensures FilesKept(Step(s, t))
  {
    var s' := Step(s, t);
    forall f
      ensures s'.closed[f] == Closings(s', f)
    {
      assert s.closed[f] == Closings(s, f);
    }
  }

  lemma {:induction false} KeptRun(s: Session, turns: seq<Turn>)
    requires FilesKept(s) && KeepsFiles(s, turns)
    ensures FilesKept(Run(s, turns))
    decreases |turns|
  {
    if turns != [] && !s.exiting {
      KeptStep(s, turns[0]);
      KeptRun(Step(s, turns[0]), turns[1..]);
    }
  }

  lemma KeptDies(s: Session)
    requires FilesKept(s)
    ensures ClosedOnce(Die(s)) && !Die(s).state.Xfer?
  {
    var e := Die(s);
    forall f
      ensures e.closed[f] == Closings(e, f)
    {
      assert s.closed[f] == Closings(s, f);
    }
  }

  lemma DropLoses(s: Session, t: Turn)
    requires FilesKept(s) && Drops(s, t)
    ensures Lost(Step(s, t), s.file)
  {
    assert s.closed[s.file] == Closings(s, s.file);
  }

  lemma {:induction false} DroppedRun(s: Session, turns: seq<Turn>) returns (f: int)
    requires FilesKept(s) && !KeepsFiles(s, turns)
    ensures Lost(Die(Run(s, turns)), f)
    decreases |turns|
  {
    hide Die, Step, Drops, FilesKept, Lost;
    var s' := Step(s, turns[0]);
    if Drops(s, turns[0]) {
      DropLoses(s, turns[0]);
      LostForever(s', turns[1..], s.file);
      f := s.file;
    } else {
      KeptStep(s, turns[0]);
      f := DroppedRun(s', turns[1..]);
    }
  }

  /** However a session ends, client_die leaves every file it ever opened closed
      exactly once, and nothing else closed, if and only if no turn dropped an open
      file. */
  lemma AllClosedOnce(s: Session, turns: seq<Turn>)
    requires FilesKept(s)
    ensures ClosedOnce(Die(Run(s, turns))) <==> KeepsFiles(s, turns)
    ensures KeepsFiles(s, turns) ==> !Die(Run(s, turns)).state.Xfer?
    ensures Die(Run(s, turns)).file == NONE
  {
    if KeepsFiles(s, turns) {
      KeptRun(s, turns);
      KeptDies(Run(s, turns));
    } else {
      var f := DroppedRun(s, turns);
    }
  }

  // ----- Disturbed transfers -----

  /** File `f` was opened, is not open as the current file, and has not been closed. */
  predicate Lost(s: Session, f: int) { 0 <= f < s.fileCount && s.file != f && s.file < s.fileCount && s.closed[f] == 0 }

  lemma LostStays(s: Session, t: Turn, f: int)
    requires Lost(s, f)
    ensures Lost(Step(s, t), f)
  {
  }

  lemma {:induction false} LostForever(s: Session, turns: seq<Turn>, f: int)
    requires Lost(s, f)
    ensures Lost(Die(Run(s, turns)), f)
    decreases |turns|
  {
    if turns != [] && !s.exiting {
      LostStays(s, turns[0], f);
      LostForever(Step(s, turns[0]), turns[1..], f);
    }
  }

  /** MKD or RNFR in mid-transfer loses the file: whatever follows, it is never closed. */
  lemma OverwriteLosesFile(s: Session, t: Turn, turns: seq<Turn>)
    requires Inv(s) && s.state.Xfer? && (t.Mkd? || t.Rnfr?) && t.reached
    ensures Die(Run(Step(s, t), turns)).closed[s.file] == 0
  {
    assert s.closed[s.file] == Closings(s, s.file);
    LostForever(Step(s, t), turns, s.file);
  }

  /** STAT or MLST in mid-transfer makes the next data_set_fd fail its assertion, and a
      second transfer started then loses the file of the first. */
  lemma StatusBreaksTransfer(s: Session, completed: bool, t: Turn, turns: seq<Turn>)
    requires Inv(s) && s.state.Xfer? && !NoDataConnection(s)
    requires t.Transfer? && t.allowed && t.accepted && t.opens && t.wait.Connected?
    ensures var s' := Step(s, Status(true, completed));
      AssertionFails(s') && Die(Run(Step(s', t), turns)).closed[s.file] == 0
  {
    var s' := Step(s, Status(true, completed));
    assert s.closed[s.file] == Closings(s, s.file);
    LostForever(Step(s', t), turns, s.file);
  }
}
