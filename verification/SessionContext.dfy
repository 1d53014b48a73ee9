/** The handlers of a session, updating its context field by field
    (libwzd-core/wzd_ClientThread.c, wzd_data.c). */
module SessionContext {
  import opened Common
  import opened Session
  import opened SessionHistory

  /** The socket that the main loop waits for data on. */
  function SocketOf(s: Session): int { if Moving(s) && !AssertionFails(s) then s.dataSocket else NONE }

  /** In an undisturbed run that is the socket of the transfer that is on, if any. */
  lemma SocketExplained(turns: seq<Turn>)
    requires Undisturbed(Fresh, turns)
    ensures forall j: nat :: Started(turns, j) ==> SocketOf(Run(Fresh, turns)) == turns[j].wait.sock
    ensures !(exists j: nat :: Started(turns, j)) ==> SocketOf(Run(Fresh, turns)) == NONE
  {
    hide Run, Started, Opened, Undisturbed;
    TransferExplained(turns);
  }

  lemma {:induction false} UndisturbedPrefix(s: Session, turns: seq<Turn>, k: nat)
    requires Undisturbed(s, turns) && k <= |turns|
    ensures Undisturbed(s, turns[..k])
    decreases k
  {
    hide Step, Disturbs;
    if k > 0 && !s.exiting {
      UndisturbedPrefix(Step(s, turns[0]), turns[1..], k - 1);
      assert turns[..k][1..] == turns[1..][..k - 1];
    }
  }

  /** The sockets that the main loop waited on, turn by turn, are those of the run. */
  ghost predicate Waited(turns: seq<Turn>, sockets: seq<int>) {
    |sockets| <= |turns| && forall k :: 0 <= k < |sockets| ==> sockets[k] == SocketOf(Run(Fresh, turns[..k]))
  }

  /** Before each turn the main loop waits on the socket of the transfer that is on, if any. */
  ghost predicate WaitsRight(turns: seq<Turn>, sockets: seq<int>) {
    |sockets| <= |turns| && forall k: nat :: k < |sockets| ==> WaitsRightAt(turns[..k], sockets[k])
  }

  ghost predicate WaitsRightAt(turns: seq<Turn>, sock: int) {
    (forall j: nat :: Started(turns, j) ==> sock == turns[j].wait.sock) &&
    (!(exists j: nat :: Started(turns, j)) ==> sock == NONE)
  }

  lemma WaitedRight(turns: seq<Turn>, sockets: seq<int>)
    requires Undisturbed(Fresh, turns) && Waited(turns, sockets)
    ensures WaitsRight(turns, sockets)
  {
    hide Run, Started, Undisturbed, SocketOf;
    forall k: nat | k < |sockets| ensures WaitsRightAt(turns[..k], sockets[k]) {
      UndisturbedPrefix(Fresh, turns, k);
      SocketExplained(turns[..k]);
    }
  }

  class Context {
    var state: State
    var token: Token
    var currentFile: int
    var dataSocket: int
    var pasvSocket: int
    var dataport: nat
    var exitclient: bool
    var fileCount: nat
    var closed: multiset<int>

    ghost function View(): Session
      reads this
    {
      Session(state, token, currentFile, dataSocket, pasvSocket, dataport, exitclient, fileCount, closed)
    }

    /** context_init, and the state the main loop starts with. */
    constructor ()
      ensures View() == Fresh
    {
      state, token, currentFile, dataSocket, pasvSocket := Command, TokUnknown, NONE, NONE, NONE;
      dataport, exitclient, fileCount, closed := 0, false, 0, multiset{};
    }

    method FileOpen(opens: bool) returns (fd: int)
      modifies this`fileCount
      ensures fd == (if opens then old(fileCount) else NONE) && fileCount == old(fileCount) + if opens then 1 else 0
    {
      if !opens {
        return NONE;
      }
      fd, fileCount := fileCount, fileCount + 1;
    }

    method FileClose(fd: int)
      modifies this`closed
      ensures closed == old(closed) + multiset{fd}
    {
      closed := closed + multiset{fd};
    }

    method DataClose()
      modifies this
      ensures View() == old(View()).(dataSocket := NONE, pasvSocket := NONE, state := Unknown)
    {
      dataSocket := NONE;
      pasvSocket := NONE;
      state := Unknown;
    }

    method DataEndTransfer()
      modifies this
      ensures View() == EndTransfer(old(View()))
    {
      FileClose(currentFile);
      currentFile := NONE;
      state := Command;
      DataClose();
      token := TokUnknown;
    }

    /** Which socket the main loop waits for data on; `logged` if an assertion failed. */
    method DataSetFd() returns (fd: int, logged: bool)
      ensures logged <==> AssertionFails(View())
      ensures fd == SocketOf(View())
    {
      fd, logged := NONE, false;
      if token == TokRetr || token == TokStor {
        if state != Xfer || dataSocket == NONE {
          logged := true;
        } else {
          fd := dataSocket;
        }
      }
    }

    method DataExecute(more: bool)
      modifies this
      ensures View() == MoveData(old(View()), more)
    {
      match token {
        case TokRetr =>
          if !more { DataEndTransfer(); token := TokUnknown; }
        case TokStor =>
          if !more { DataEndTransfer(); token := TokUnknown; }
        case _ =>
      }
    }

    /** waitaccept if there is a passive socket, else waitconnect. */
    method AwaitData(wait: Wait) returns (sock: int)
      modifies this`pasvSocket, this`dataSocket
      ensures wait.Refused? ==> sock == NONE && dataSocket == old(dataSocket)
      ensures wait.Refused? ==> pasvSocket == if wait.lost then NONE else old(pasvSocket)
      ensures wait.Connected? ==> sock == wait.sock
      ensures wait.Connected? ==> pasvSocket == if old(pasvSocket) == NONE then NONE else sock
      ensures wait.Connected? ==> dataSocket == if old(pasvSocket) == NONE then old(dataSocket) else sock
    {
      sock := NONE;
      if pasvSocket == NONE {
        if wait.Connected? { sock := wait.sock; }
        return;
      }
      match wait {
        case Refused(lost) =>
          if lost { pasvSocket := NONE; }
        case Connected(s) =>
          sock := s;
          pasvSocket := sock;
          dataSocket := sock;
      }
    }

    /** What do_retr and do_stor do once every check has passed: open the file, then
        get a data connection and enter the transfer state, or close the file again. */
    method OpenAndConnect(tok: Token, opens: bool, wait: Wait)
      requires tok.TokRetr? || tok.TokStor?
      requires state != Xfer && !NoDataConnection(View())
      modifies this
      ensures View() == StartTransfer(old(View()), Transfer(tok.TokStor?, true, true, opens, wait))
    {
      var fd := FileOpen(opens);
      if fd == NONE {
        return;
      }
      Connect(tok, fd, wait);
    }

    method Connect(tok: Token, fd: int, wait: Wait)
      modifies this
      ensures wait.Refused? ==>
        View() == old(View()).(closed := old(closed) + multiset{fd},
                               pasvSocket := if wait.lost then NONE else old(pasvSocket))
      ensures wait.Connected? ==>
        View() == old(View()).(state := Xfer, token := tok, file := fd, dataSocket := wait.sock,
                               pasvSocket := if old(pasvSocket) == NONE then NONE else wait.sock)
    {
      var restorestate := token;
      token := tok;
      var sock := AwaitData(wait);
      if sock == NONE {
        token := restorestate;
        FileClose(fd);
        return;
      }
      dataSocket := sock;
      state := Xfer;
      currentFile := fd;
    }

    method DoRetr(allowed: bool, accepted: bool, opens: bool, wait: Wait)
      modifies this
      ensures View() == StartTransfer(old(View()), Transfer(false, allowed, accepted, opens, wait))
      ensures Connects(old(View()), Transfer(false, allowed, accepted, opens, wait)) ==>
        state == Xfer && token == TokRetr && dataSocket == wait.sock && currentFile == old(fileCount)
      ensures !Connects(old(View()), Transfer(false, allowed, accepted, opens, wait)) ==>
        state == old(state) && token == old(token) && dataSocket == old(dataSocket) && currentFile == old(currentFile)
    {
      if !allowed || (pasvSocket == NONE && dataport == 0) || state == Xfer {
        return;
      }
      var restorestate := token;
      token := TokRetr;
      if !accepted {
        token := restorestate;
        return;
      }
      token := restorestate;
      OpenAndConnect(TokRetr, opens, wait);
    }

    method DoStor(allowed: bool, accepted: bool, opens: bool, wait: Wait)
      modifies this
      ensures View() == StartTransfer(old(View()), Transfer(true, allowed, accepted, opens, wait))
      ensures Connects(old(View()), Transfer(true, allowed, accepted, opens, wait)) ==>
        state == Xfer && token == TokStor && dataSocket == wait.sock && currentFile == old(fileCount)
      ensures !Connects(old(View()), Transfer(true, allowed, accepted, opens, wait)) ==>
        state == old(state) && token == old(token) && dataSocket == old(dataSocket) && currentFile == old(currentFile)
    {
      if !allowed || (pasvSocket == NONE && dataport == 0) || state == Xfer || !accepted {
        return;
      }
      OpenAndConnect(TokStor, opens, wait);
    }

    /** do_list and do_mlsd. */
    method DoList(allowed: bool, accepted: bool, wait: Wait)
      modifies this
      ensures View() == ListDirectory(old(View()), List(allowed, accepted, wait))
    {
      if !allowed || (pasvSocket == NONE && dataport == 0) || state == Xfer || !accepted {
        return;
      }
      var passive := pasvSocket != NONE;
      var sock := AwaitData(wait);
      if sock == NONE {
        return;
      }
      if passive { pasvSocket := NONE; }
      state := Xfer;
      dataSocket := NONE;
      state := Unknown;
    }

    method DoAbor()
      modifies this
      ensures View() == Abort(old(View()))
    {
      if pasvSocket != NONE && dataSocket != pasvSocket {
        pasvSocket := NONE;
      }
      if currentFile != NONE {
        if token == TokStor || token == TokRetr {
          DataEndTransfer();
        }
      }
    }

    method CheckTime(dataLate: bool, idleLate: bool)
      modifies this
      ensures View() == CheckTimeout(old(View()), dataLate, idleLate)
    {
      if token == TokStor || token == TokRetr {
        if dataLate {
          FileClose(currentFile);
          currentFile := NONE;
          token := TokUnknown;
          DataClose();
        }
        return;
      }
      if idleLate { exitclient := true; }
    }

    method ClientDie()
      modifies this
      ensures View() == Die(old(View()))
    {
      if currentFile != NONE {
        DataEndTransfer();
      }
      if pasvSocket != NONE {
        pasvSocket := NONE;
      }
      dataSocket := NONE;
    }

    method DoMkd(reached: bool)
      modifies this
      ensures View() == Step(old(View()), Mkd(reached))
    {
      if reached { token, currentFile := TokMkd, NONE; }
    }

    method DoRnfr(reached: bool)
      modifies this
      ensures View() == Step(old(View()), Rnfr(reached))
    {
      if reached { token, currentFile := TokRnfr, NONE; }
    }

    method DoRnto(reached: bool)
      modifies this
      ensures View() == Step(old(View()), Rnto(reached))
    {
      if token != TokRnfr {
        return;
      }
      if reached { token, currentFile := TokUnknown, NONE; }
    }

    method DoDele(reached: bool)
      modifies this
      ensures View() == Step(old(View()), Dele(reached))
    {
      if reached {
        token := TokDele;
        token := TokUnknown;
      }
    }

    /** do_mlst and do_stat. */
    method DoStatus(reached: bool, completed: bool)
      modifies this
      ensures View() == Step(old(View()), Status(reached, completed))
    {
      if reached {
        state := Command;
        if completed { state := Unknown; }
      }
    }

    method DoPasv(sock: Option<nat>)
      modifies this
      ensures View() == Step(old(View()), Pasv(sock))
    {
      pasvSocket := NONE;
      if sock.Some? { pasvSocket := sock.value; }
    }

    method DoPort(port: Option<nat>)
      modifies this
      ensures View() == Step(old(View()), Port(port))
    {
      pasvSocket := NONE;
      if port.Some? { dataport := port.value; }
    }

    /** One turn of the main loop. */
    method Turn(t: Turn)
      modifies this
      ensures View() == Step(old(View()), t)
    {
      hide StartTransfer, ListDirectory, Abort, MoveData, CheckTimeout;
      match t {
        case Transfer(upload, allowed, accepted, opens, wait) =>
          if upload { DoStor(allowed, accepted, opens, wait); } else { DoRetr(allowed, accepted, opens, wait); }
        case List(allowed, accepted, wait) => DoList(allowed, accepted, wait);
        case Abor => DoAbor();
        case Mkd(reached) => DoMkd(reached);
        case Rnfr(reached) => DoRnfr(reached);
        case Rnto(reached) => DoRnto(reached);
        case Dele(reached) => DoDele(reached);
        case Status(reached, completed) => DoStatus(reached, completed);
        case Pasv(sock) => DoPasv(sock);
        case Port(port) => DoPort(port);
        case Quit => exitclient := true;
        case Other =>
        case Data(more) => DataExecute(more);
        case Tick(dataLate, idleLate) => CheckTime(dataLate, idleLate);
        case Disconnect => exitclient := true;
      }
    }

    /** The main loop and client_die. Each turn first asks which socket to wait on: in an
        undisturbed session, that of the transfer that is on. Asking fails an assertion
        exactly if STAT or MLST interrupted a transfer before the last turn, and in the end
        every file is closed exactly once exactly if none was dropped. */
    method ClientThread(turns: seq<Turn>) returns (failures: nat, sockets: seq<int>)
      requires View() == Fresh
      modifies this
      ensures View() == Die(Run(Fresh, turns))
      ensures Undisturbed(Fresh, turns) ==> WaitsRight(turns, sockets)
      ensures turns != [] ==> (failures == 0 <==> Uninterrupted(Fresh, turns[..|turns| - 1]))
      ensures ClosedOnce(View()) <==> KeepsFiles(Fresh, turns)
    {
      hide Step, Accounted, AssertionFails, ClosedOnce, Die, SocketOf, WaitsRight, Undisturbed, KeepsFiles, Run, Quiet;
      failures, sockets := 0, [];
      FreshInv();
      InvKeepsFiles(Fresh);
      var k := 0;
      RunStarts(turns);
      while k < |turns| && !exitclient
        invariant 0 <= k <= |turns| && View() == Run(Fresh, turns[..k]) && Run(View(), turns[k..]) == Run(Fresh, turns)
        invariant |sockets| == k && Waited(turns, sockets)
        invariant Quiet(Fresh, turns) <==> failures == 0 && Quiet(View(), turns[k..])
      {
        var fd, logged := DataSetFd();
        if logged { failures := failures + 1; }
        sockets := sockets + [fd];
        RunTurn(turns, k);
        Turn(turns[k]);
        k := k + 1;
      }
      RunEnds(View(), turns[k..]);
      if turns != [] { QuietExact(Fresh, turns); }
      if Undisturbed(Fresh, turns) { WaitedRight(turns, sockets); }
      AllClosedOnce(Fresh, turns);
      ClientDie();
    }
  }

  lemma RunStarts(turns: seq<Turn>)
    ensures Run(Fresh, turns[..0]) == Fresh && turns[0..] == turns
  {
  }

  /** Taking the first of the turns left. */
  lemma RunTurn(turns: seq<Turn>, k: nat)
    requires k < |turns| && !Run(Fresh, turns[..k]).exiting
    ensures var s := Run(Fresh, turns[..k]);
      Run(Fresh, turns[..k + 1]) == Step(s, turns[k]) &&
      Run(s, turns[k..]) == Run(Step(s, turns[k]), turns[k + 1..]) &&
      (Quiet(s, turns[k..]) <==> !AssertionFails(s) && Quiet(Step(s, turns[k]), turns[k + 1..]))
  {
    hide Step, AssertionFails;
    assert turns[k..][1..] == turns[k + 1..];
    assert turns[..k + 1] == turns[..k] + [turns[k]];
    RunSnoc(Fresh, turns[..k], turns[k]);
  }

  lemma RunEnds(s: Session, turns: seq<Turn>)
    requires turns == [] || s.exiting
    ensures Run(s, turns) == s && Quiet(s, turns)
  {
  }
}
