/** What a session's context says about its transfer, read off the turns it went through:
    which of them started it, which way data moves, and over which socket. */
module SessionHistory {
  import opened Common
  import opened Session

  // ----- Turns of a run -----

  /** The context before turn `i`. */
  function Before(turns: seq<Turn>, i: nat): Session
    requires i <= |turns|
  {
    Run(Fresh, turns[..i])
  }

  /** Turn `i` takes place: the session has not ended before it. */
  predicate Happens(turns: seq<Turn>, i: nat)
    requires i <= |turns|
  {
    !Before(turns, i).exiting
  }

  /** Turn `i` is a transfer command that gets its data connection. */
  predicate Starts(turns: seq<Turn>, i: nat)
    requires i < |turns|
  {
    Happens(turns, i) && Connects(Before(turns, i), turns[i])
  }

  /** A turn that ends whatever transfer is on: ABOR, the end of the data, or a late peer. */
  predicate Stops(t: Turn) { t.Abor? || (t.Data? && !t.more) || (t.Tick? && t.dataLate) }

  /** Turn `j` started a transfer, and no turn since has ended it. */
  predicate Started(turns: seq<Turn>, j: nat) {
    j < |turns| && Starts(turns, j) && forall i :: j < i < |turns| && Happens(turns, i) ==> !Stops(turns[i])
  }

  /** Turn `i` opens a file. */
  predicate OpensFile(turns: seq<Turn>, i: nat)
    requires i < |turns|
  {
    var s, t := Before(turns, i), turns[i];
    Happens(turns, i) && t.Transfer? && t.allowed && !NoDataConnection(s) && !s.state.Xfer? && t.accepted && t.opens
  }

  /** How many of the first `k` turns open a file. */
  function Opened(turns: seq<Turn>, k: nat): nat
    requires k <= |turns|
  {
    if k == 0 then 0 else Opened(turns, k - 1) + if OpensFile(turns, k - 1) then 1 else 0
  }

  // ----- One turn more -----

  lemma {:induction false} RunSnoc(s: Session, turns: seq<Turn>, t: Turn)
    ensures Run(s, turns + [t]) == if Run(s, turns).exiting then Run(s, turns) else Step(Run(s, turns), t)
    ensures Undisturbed(s, turns + [t]) <==>
      Undisturbed(s, turns) && (Run(s, turns).exiting || !Disturbs(Run(s, turns), t))
    decreases |turns|
  {
    hide Step, Disturbs;
    var all := turns + [t];
    if turns == [] {
      assert all[1..] == [];
    } else if !s.exiting {
      assert all[1..] == turns[1..] + [t];
      RunSnoc(Step(s, turns[0]), turns[1..], t);
    }
  }

  /** The context after a run, by its last turn. */
  lemma LastTurn(turns: seq<Turn>)
    requires turns != []
    ensures var n := |turns| - 1;
      Run(Fresh, turns) == if Happens(turns, n) then Step(Before(turns, n), turns[n]) else Before(turns, n)
    ensures var n := |turns| - 1;
      Undisturbed(Fresh, turns) ==>
        Undisturbed(Fresh, turns[..n]) && (Happens(turns, n) ==> !Disturbs(Before(turns, n), turns[n]))
  {
    hide Step, Disturbs, Run, Undisturbed;
    var n := |turns| - 1;
    assert turns == turns[..n] + [turns[n]];
    RunSnoc(Fresh, turns[..n], turns[n]);
  }

  /** The history of a shorter run is the same. */
  lemma PrefixHistory(turns: seq<Turn>, n: nat, i: nat)
    requires i <= n <= |turns|
    ensures Before(turns[..n], i) == Before(turns, i) && Happens(turns[..n], i) == Happens(turns, i)
    ensures i < n ==> Starts(turns[..n], i) == Starts(turns, i) && OpensFile(turns[..n], i) == OpensFile(turns, i)
  {
    hide Run, Connects, NoDataConnection;
    assert turns[..n][..i] == turns[..i];
  }

  lemma {:induction false} PrefixOpened(turns: seq<Turn>, n: nat, k: nat)
    requires k <= n <= |turns|
    ensures Opened(turns[..n], k) == Opened(turns, k)
    decreases k
  {
    hide OpensFile;
    if k > 0 {
      PrefixHistory(turns, n, k - 1);
      PrefixOpened(turns, n, k - 1);
    }
  }

  lemma StillStarted(turns: seq<Turn>, n: nat, j: nat)
    requires n + 1 == |turns|
    ensures Started(turns, j) <==>
      (j == n && Starts(turns, n)) || (Started(turns[..n], j) && (Happens(turns, n) ==> !Stops(turns[n])))
  {
    hide Before, Stops, Starts, Happens;
    var init := turns[..n];
    forall i: nat | i < n ensures Starts(init, i) == Starts(turns, i) && Happens(init, i) == Happens(turns, i) {
      PrefixHistory(turns, n, i);
    }
    forall i: nat | i < n ensures init[i] == turns[i] {}
  }

  // ----- What moves data -----

  /** What the context says when turn `t`, with `files` files opened before it, started the
      transfer that is on. */
  predicate Transferring(s: Session, t: Turn, files: nat)
    requires t.Transfer? && t.wait.Connected?
  {
    s.state.Xfer? && s.token == (if t.upload then TokStor else TokRetr) && s.dataSocket == t.wait.sock &&
    s.file == files
  }

  predicate Idle(s: Session) { !s.state.Xfer? && !Moving(s) && s.dataSocket == NONE && s.file == NONE }

  lemma StepFiles(s: Session, t: Turn)
    ensures Step(s, t).fileCount == s.fileCount +
      if t.Transfer? && t.allowed && !NoDataConnection(s) && !s.state.Xfer? && t.accepted && t.opens then 1 else 0
  {
  }

  /** As many files were opened as turns opened one. */
  lemma {:induction false} FilesOpened(turns: seq<Turn>)
    ensures Run(Fresh, turns).fileCount == Opened(turns, |turns|)
    decreases |turns|
  {
    hide Step, Run, Connects, NoDataConnection;
    if turns == [] {
      NoTurns();
    } else {
      var n := |turns| - 1;
      LastTurn(turns);
      FilesOpened(turns[..n]);
      PrefixOpened(turns, n, n);
      PrefixHistory(turns, n, n);
      StepFiles(Before(turns, n), turns[n]);
    }
  }

  lemma NoTurns()
    ensures Run(Fresh, []) == Fresh
  {
  }

  /** A turn that connects starts a transfer; without one, only a turn that stops it changes
      what is transferred, and a context without a transfer stays so. */
  lemma StepStarts(s: Session, t: Turn)
    requires Connects(s, t)
    ensures Transferring(Step(s, t), t, s.fileCount)
  {
  }

  lemma StepGoesOn(s: Session, t: Turn, t0: Turn, files: nat)
    requires t0.Transfer? && t0.wait.Connected? && Transferring(s, t0, files) && !Disturbs(s, t)
    ensures if Stops(t) then Idle(Step(s, t)) else Transferring(Step(s, t), t0, files)
  {
  }

  lemma StepStaysIdle(s: Session, t: Turn)
    requires Idle(s) && !Connects(s, t)
    ensures Idle(Step(s, t))
  {
  }

  /** Turn `j` accounts for the transfer that context `s` has on. */
  predicate Explains(turns: seq<Turn>, j: nat, s: Session) {
    j < |turns| && turns[j].Transfer? && turns[j].wait.Connected? && Transferring(s, turns[j], Opened(turns, j))
  }

  /** Context `s` agrees with the turns it went through. */
  ghost predicate Explained(turns: seq<Turn>, s: Session) {
    ((exists j: nat :: Started(turns, j)) || Idle(s)) && forall j: nat :: Started(turns, j) ==> Explains(turns, j, s)
  }

  /** In every undisturbed run: data moves exactly while some turn has started a transfer
      that no turn since has ended. Then it moves in that turn's direction, over the socket
      that its wait gave, into or out of the file it opened. */
  lemma {:induction false} TransferExplained(turns: seq<Turn>)
    requires Undisturbed(Fresh, turns)
    ensures Explained(turns, Run(Fresh, turns))
    decreases |turns|
  {
    hide Step, Run, Undisturbed, Disturbs, Explained, Happens, Before;
    if turns == [] {
      NothingStarted();
    } else {
      LastTurn(turns);
      assert Before(turns, |turns| - 1) == Run(Fresh, turns[..|turns| - 1]) by { BeforeIs(turns, |turns| - 1); }
      TransferExplained(turns[..|turns| - 1]);
      TransferGoesOn(turns, |turns| - 1, Run(Fresh, turns));
    }
  }

  lemma BeforeIs(turns: seq<Turn>, n: nat)
    requires n <= |turns|
    ensures Before(turns, n) == Run(Fresh, turns[..n])
  {
  }

  lemma NothingStarted()
    ensures Explained([], Run(Fresh, []))
  {
  }

  lemma TransferGoesOn(turns: seq<Turn>, n: nat, s': Session)
    requires n + 1 == |turns| && (Happens(turns, n) ==> !Disturbs(Before(turns, n), turns[n]))
    requires Explained(turns[..n], Before(turns, n))
    requires s' == if Happens(turns, n) then Step(Before(turns, n), turns[n]) else Before(turns, n)
    ensures Explained(turns, s')
  {
    hide Step, Stops, Started, Disturbs, Explains, Before, Starts, Happens, Idle;
    var init, s := turns[..n], Before(turns, n);
    forall j: nat ensures Started(turns, j) <==>
      (j == n && Starts(turns, n)) || (Started(init, j) && (Happens(turns, n) ==> !Stops(turns[n])))
    {
      StillStarted(turns, n, j);
    }
    forall j: nat | Started(init, j)
      ensures !Starts(turns, n) && if Happens(turns, n) && Stops(turns[n]) then Idle(s') else Explains(turns, j, s')
    {
      GoesOn(turns, n, j, s');
    }
    if Starts(turns, n) {
      assert Started(turns, n);
      StartsNow(turns, n, s');
    } else if Idle(s) {
      IdleStays(turns, n, s');
    }
  }

  lemma StartsNow(turns: seq<Turn>, n: nat, s': Session)
    requires n < |turns| && Starts(turns, n)
    requires s' == if Happens(turns, n) then Step(Before(turns, n), turns[n]) else Before(turns, n)
    ensures Explains(turns, n, s')
  {
    hide Step, Run, NoDataConnection;
    FilesOpened(turns[..n]);
    PrefixOpened(turns, n, n);
    StepStarts(Before(turns, n), turns[n]);
  }

  lemma IdleStays(turns: seq<Turn>, n: nat, s': Session)
    requires n < |turns| && Idle(Before(turns, n)) && !Starts(turns, n)
    requires s' == if Happens(turns, n) then Step(Before(turns, n), turns[n]) else Before(turns, n)
    ensures Idle(s')
  {
    hide Step, Run, Idle, Connects;
    if Happens(turns, n) { StepStaysIdle(Before(turns, n), turns[n]); }
  }

  lemma GoesOn(turns: seq<Turn>, n: nat, j: nat, s': Session)
    requires n + 1 == |turns| && (Happens(turns, n) ==> !Disturbs(Before(turns, n), turns[n]))
    requires Explains(turns[..n], j, Before(turns, n))
    requires s' == if Happens(turns, n) then Step(Before(turns, n), turns[n]) else Before(turns, n)
    ensures !Starts(turns, n)
    ensures if Happens(turns, n) && Stops(turns[n]) then Idle(s') else Explains(turns, j, s')
  {
    hide Step, Run, Idle, Stops, Opened, Disturbs, NoDataConnection, Before;
    PrefixOpened(turns, n, j);
    assert turns[..n][j] == turns[j];
    if Happens(turns, n) { StepGoesOn(Before(turns, n), turns[n], turns[j], Opened(turns, j)); }
  }

  // ----- The other fields -----

  /** The port of the last PORT or EPRT that gave one. */
  function LastPort(turns: seq<Turn>): nat {
    if turns == [] then 0
    else
      var n := |turns| - 1;
      if Happens(turns, n) && turns[n].Port? && turns[n].port.Some? then turns[n].port.value else LastPort(turns[..n])
  }

  /** A turn that ends the session: QUIT, a lost connection, or idling without a transfer. */
  predicate Leaves(s: Session, t: Turn) { t.Quit? || t.Disconnect? || (t.Tick? && t.idleLate && !Moving(s)) }

  lemma StepPort(s: Session, t: Turn)
    ensures Step(s, t).dataport == if t.Port? && t.port.Some? then t.port.value else s.dataport
    ensures Step(s, t).exiting <==> s.exiting || Leaves(s, t)
  {
  }

  /** In every run, the data port is the last one given, and the session is over exactly if
      some turn ended it. */
  lemma {:induction false} PortAndExit(turns: seq<Turn>)
    ensures Run(Fresh, turns).dataport == LastPort(turns)
    ensures Run(Fresh, turns).exiting <==>
      exists i: nat :: i < |turns| && Happens(turns, i) && Leaves(Before(turns, i), turns[i])
    decreases |turns|
  {
    hide Step, Run, Leaves;
    if turns == [] {
      NoTurns();
    } else {
      var n := |turns| - 1;
      var init := turns[..n];
      LastTurn(turns);
      PortAndExit(init);
      StepPort(Before(turns, n), turns[n]);
      forall i: nat | i < n
        ensures Happens(init, i) == Happens(turns, i) && Before(init, i) == Before(turns, i) && init[i] == turns[i]
      {
        PrefixHistory(turns, n, i);
      }
      hide Before;
      if Happens(turns, n) && Leaves(Before(turns, n), turns[n]) { assert n < |turns|; }
    }
  }

  /** Turn `t` of a session with context `s` waits for a data connection. */
  predicate Waits(s: Session, t: Turn) {
    (t.Transfer? || t.List?) && t.allowed && !NoDataConnection(s) && !s.state.Xfer? && t.accepted &&
    (t.Transfer? ==> t.opens)
  }

  /** The passive socket: the one of the last PASV, or the connection accepted on it since;
      gone with a PORT, a lost wait, a listing, or the end of a transfer. */
  ghost function Passive(turns: seq<Turn>): int {
    if turns == [] then NONE
    else
      var n, t := |turns| - 1, turns[|turns| - 1];
      var was := Passive(turns[..n]);
      if !Happens(turns, n) then was
      else if t.Pasv? then (if t.sock.Some? then t.sock.value else NONE)
      else if t.Port? || t.Abor? then NONE
      else if Stops(t) then (if exists j: nat :: Started(turns[..n], j) then NONE else was)
      else if !Waits(Before(turns, n), t) then was
      else if t.wait.Refused? then (if t.wait.lost then NONE else was)
      else if t.List? || was == NONE then NONE
      else t.wait.sock
  }

  lemma StepPassive(s: Session, t: Turn, moving: bool)
    requires (moving ==> s.state.Xfer? && Moving(s) && s.file != NONE) && (!moving ==> Idle(s))
    ensures Step(s, t).pasvSocket ==
      if t.Pasv? then (if t.sock.Some? then t.sock.value else NONE)
      else if t.Port? || t.Abor? then NONE
      else if Stops(t) then (if moving then NONE else s.pasvSocket)
      else if !Waits(s, t) then s.pasvSocket
      else if t.wait.Refused? then (if t.wait.lost then NONE else s.pasvSocket)
      else if t.List? || s.pasvSocket == NONE then NONE
      else t.wait.sock
  {
  }

  lemma ExplainedMoves(turns: seq<Turn>, s: Session)
    requires Explained(turns, s)
    ensures (exists j: nat :: Started(turns, j)) ==> s.state.Xfer? && Moving(s) && s.file != NONE
    ensures !(exists j: nat :: Started(turns, j)) ==> Idle(s)
  {
    hide Started, Opened;
  }

  /** In every undisturbed run, the passive socket is what the turns make it. */
  lemma {:induction false} PassiveExplained(turns: seq<Turn>)
    requires Undisturbed(Fresh, turns)
    ensures Run(Fresh, turns).pasvSocket == Passive(turns)
    decreases |turns|
  {
    hide Step, Run, Undisturbed, Started, Explained, Waits, Stops;
    if turns == [] {
      NoTurns();
    } else {
      var n := |turns| - 1;
      LastTurn(turns);
      PassiveExplained(turns[..n]);
      TransferExplained(turns[..n]);
      ExplainedMoves(turns[..n], Run(Fresh, turns[..n]));
      StepPassive(Before(turns, n), turns[n], exists j: nat :: Started(turns[..n], j));
    }
  }

  // ----- Renaming -----

  /** A turn that takes the place of a pending RNFR. */
  predicate Replaces(turns: seq<Turn>, i: nat)
    requires i < |turns|
  {
    Happens(turns, i) &&
    (((turns[i].Mkd? || turns[i].Rnto? || turns[i].Dele?) && turns[i].reached) || Starts(turns, i))
  }

  /** Turn `j` was an RNFR that got through, and nothing since has taken its place. */
  predicate Renames(turns: seq<Turn>, j: nat) {
    j < |turns| && Happens(turns, j) && turns[j].Rnfr? && turns[j].reached &&
    forall i :: j < i < |turns| ==> !Replaces(turns, i)
  }

  lemma StillRenames(turns: seq<Turn>, n: nat, j: nat)
    requires n + 1 == |turns|
    ensures Renames(turns, j) <==>
      (j == n && Happens(turns, n) && turns[n].Rnfr? && turns[n].reached) ||
      (Renames(turns[..n], j) && !Replaces(turns, n))
  {
    hide Before, Starts, Happens;
    var init := turns[..n];
    forall i: nat | i < n
      ensures Replaces(init, i) == Replaces(turns, i) && Happens(init, i) == Happens(turns, i) && init[i] == turns[i]
    {
      PrefixHistory(turns, n, i);
    }
    if Happens(turns, n) && turns[n].Rnfr? { RnfrReplacesNothing(turns, n); }
  }

  lemma RnfrReplacesNothing(turns: seq<Turn>, n: nat)
    requires n < |turns| && turns[n].Rnfr?
    ensures !Replaces(turns, n)
  {
  }

  lemma StepRenames(s: Session, t: Turn)
    ensures Step(s, t).token.TokRnfr? <==>
      (t.Rnfr? && t.reached) ||
      (s.token.TokRnfr? && !((t.Mkd? || t.Rnto? || t.Dele?) && t.reached) && !Connects(s, t))
  {
  }

  /** In every run, RNTO finds a rename under way exactly if an RNFR got through and no
      command since has taken its place. */
  lemma {:induction false} RenameExplained(turns: seq<Turn>)
    ensures Run(Fresh, turns).token.TokRnfr? <==> exists j: nat :: Renames(turns, j)
    decreases |turns|
  {
    hide Step, Run, Connects, Renames;
    if turns == [] {
      NoTurns();
      forall j: nat ensures !Renames([], j) { NoRename(j); }
    } else {
      var n := |turns| - 1;
      LastTurn(turns);
      RenameExplained(turns[..n]);
      StepRenames(Before(turns, n), turns[n]);
      forall j: nat ensures Renames(turns, j) <==>
        (j == n && Happens(turns, n) && turns[n].Rnfr? && turns[n].reached) ||
        (Renames(turns[..n], j) && !Replaces(turns, n))
      {
        StillRenames(turns, n, j);
      }
      if Happens(turns, n) && turns[n].Rnfr? && turns[n].reached { assert Renames(turns, n); }
    }
  }

  lemma NoRename(j: nat)
    ensures !Renames([], j)
  {
  }
}
