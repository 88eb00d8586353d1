/** Minting, healing and rotating managed credentials: a store row and a swarm secret that
    must agree, changed one call at a time, with a crash possible after any of them. */
module Credentials {
  import opened Common

  datatype Format = Plain | Htpasswd

  datatype Spec = Spec(base: string, format: Format, observability: bool)

  /** What a secret holds. */
  datatype Payload = PasswordOnly(password: string) | UserLine(username: string, password: string)

  function Serialise(format: Format, username: string, password: string): Payload {
    match format
    case Plain => PasswordOnly(password)
    case Htpasswd => UserLine(username, password)
  }

  datatype Row = Row(username: string, password: string, secret: string)

  /** The credential rows, the swarm's secrets, the passwords the console reveals by secret
      base name, and the services restarted so far. */
  datatype State = State(rows: map<string, Row>, secrets: map<string, Payload>, console: map<string, string>,
                         restarted: seq<string>)

  /** One call on the store or the swarm. Secrets are created if absent and never changed. */
  datatype Action =
    | EnsureSecret(secret: string, payload: Payload)
    | InsertRow(name: string, row: Row)
    | SetPassword(name: string, password: string)
    | SetUsername(name: string, username: string)
    | SetSecret(name: string, secret: string)
    | Restart(service: string)
    | LookUpConsole(base: string)
    | SetConsole(base: string, password: string)

  function Perform(st: State, a: Action): State {
    match a
    case EnsureSecret(s, p) => if s in st.secrets then st else st.(secrets := st.secrets[s := p])
    case InsertRow(n, row) => st.(rows := st.rows[n := row])
    case SetPassword(n, pw) => if n in st.rows then st.(rows := st.rows[n := st.rows[n].(password := pw)]) else st
    case SetUsername(n, u) => if n in st.rows then st.(rows := st.rows[n := st.rows[n].(username := u)]) else st
    case SetSecret(n, s) => if n in st.rows then st.(rows := st.rows[n := st.rows[n].(secret := s)]) else st
    case Restart(svc) => st.(restarted := st.restarted + [svc])
    case LookUpConsole(_) => st
    case SetConsole(b, pw) => st.(console := st.console[b := pw])
  }

  function PerformAll(st: State, actions: seq<Action>): State {
    if actions == [] then st else Perform(PerformAll(st, actions[..|actions| - 1]), actions[|actions| - 1])
  }

  lemma PerformOne(st: State, a: Action)
    ensures PerformAll(st, [a]) == Perform(st, a)
  {
    assert [a][..0] == [];
  }

  lemma PerformTwo(st: State, a: Action, b: Action)
    ensures PerformAll(st, [a, b]) == Perform(Perform(st, a), b)
  {
    assert [a, b][..1] == [a];
    PerformOne(st, a);
  }

  lemma PerformThree(st: State, a: Action, b: Action, c: Action)
    ensures PerformAll(st, [a, b, c]) == Perform(Perform(Perform(st, a), b), c)
  {
    assert [a, b, c][..2] == [a, b];
    PerformTwo(st, a, b);
  }

  // ---- the operations as the calls they make ------------------------------

  /** `ensure`: an empty user name asks for none in particular. */
  function EnsureScript(st: State, name: string, spec: Spec, username: string, minted: string): seq<Action> {
    if name in st.rows then
      var row := st.rows[name];
      var changed := username != "" && username != row.username;
      var user := if changed then username else row.username;
      if changed && spec.observability then
        [SetPassword(name, minted),
         SetUsername(name, user),
         EnsureSecret(row.secret, Serialise(spec.format, user, minted))]
      else
        [EnsureSecret(row.secret, Serialise(spec.format, user, row.password))] +
        if changed then [SetUsername(name, user)] else []
    else
      [InsertRow(name, Row(username, minted, spec.base)),
       EnsureSecret(spec.base, Serialise(spec.format, username, minted))]
  }

  /** `EnsureMaterialized`: a missing row is left missing. */
  function MaterialiseScript(st: State, name: string, spec: Spec): seq<Action> {
    if name in st.rows
    then [EnsureSecret(st.rows[name].secret, Serialise(spec.format, st.rows[name].username, st.rows[name].password))]
    else []
  }

  /** `Rotate`: the new value becomes a secret of its own before the row changes; then the
      consuming service is restarted, if there is one, and the console's copy is brought
      up to date, if there is one. A missing row is an error and nothing is called. */
  function RotateScript(st: State, name: string, spec: Spec, minted: string, versioned: string,
                        consumer: Option<string>)
    : seq<Action>
  {
    if name in st.rows
    then
      [EnsureSecret(versioned, Serialise(spec.format, st.rows[name].username, minted)),
       SetPassword(name, minted),
       SetSecret(name, versioned)] + Aftermath(st, spec, minted, consumer)
    else []
  }

  /** What a rotation does once the row names the new secret. */
  function Aftermath(st: State, spec: Spec, minted: string, consumer: Option<string>): seq<Action> {
    (if consumer.Some? then [Restart(consumer.value)] else [])
    + [LookUpConsole(spec.base)]
    + if spec.base in st.console then [SetConsole(spec.base, minted)] else []
  }

  datatype Op =
    | Ensure(name: string, spec: Spec, username: string, minted: string)
    | Materialise(name: string, spec: Spec)
    | Rotate(name: string, spec: Spec, minted: string, versioned: string, consumer: Option<string>)

  function Script(st: State, op: Op): seq<Action> {
    match op
    case Ensure(n, spec, u, f) => EnsureScript(st, n, spec, u, f)
    case Materialise(n, spec) => MaterialiseScript(st, n, spec)
    case Rotate(n, spec, f, v, c) => RotateScript(st, n, spec, f, v, c)
  }

  /** An operation of which only the first `calls` calls happened. */
  datatype Attempt = Attempt(op: Op, calls: nat)

  function Cut(st: State, a: Attempt): State {
    var s := Script(st, a.op);
    PerformAll(st, if a.calls <= |s| then s[..a.calls] else s)
  }

  function RunAll(st: State, attempts: seq<Attempt>): State {
    if attempts == [] then st else Cut(RunAll(st, attempts[..|attempts| - 1]), attempts[|attempts| - 1])
  }

  // ---- secrets only accumulate --------------------------------------------

  ghost predicate KeepsSecrets(st: State, st': State) {
    forall s :: s in st.secrets ==> s in st'.secrets && st'.secrets[s] == st.secrets[s]
  }

  lemma {:induction false} CallsKeepSecrets(st: State, actions: seq<Action>)
    ensures KeepsSecrets(st, PerformAll(st, actions))
  {
    if actions != [] {
      CallsKeepSecrets(st, actions[..|actions| - 1]);
    }
  }

  /** Whatever operations run and wherever each of them is cut off, no existing secret is
      removed or altered. */
  lemma {:induction false} SecretsOnlyAccumulate(st: State, attempts: seq<Attempt>)
    ensures KeepsSecrets(st, RunAll(st, attempts))
  {
    if attempts != [] {
      SecretsOnlyAccumulate(st, attempts[..|attempts| - 1]);
      var mid, a := RunAll(st, attempts[..|attempts| - 1]), attempts[|attempts| - 1];
      var s := Script(mid, a.op);
      CallsKeepSecrets(mid, if a.calls <= |s| then s[..a.calls] else s);
    }
  }

  // ---- rotation -----------------------------------------------------------

  /** The row names a secret that does not exist. */
  predicate Dangles(st: State, name: string) {
    name in st.rows && st.rows[name].secret !in st.secrets
  }

  /** The row's secret holds the row's own value. */
  predicate Agrees(st: State, name: string, spec: Spec) {
    && name in st.rows && st.rows[name].secret in st.secrets
    && st.secrets[st.rows[name].secret] == Serialise(spec.format, st.rows[name].username, st.rows[name].password)
  }

  /** The state after the first `calls` calls of a rotation, up to the third. */
  function RotateState(st: State, name: string, spec: Spec, minted: string, versioned: string, calls: nat): State
    requires name in st.rows
  {
    var row := st.rows[name];
    var st1 := Perform(st, EnsureSecret(versioned, Serialise(spec.format, row.username, minted)));
    if calls == 0 then st
    else if calls == 1 then st1
    else if calls == 2 then Perform(st1, SetPassword(name, minted))
    else Perform(Perform(st1, SetPassword(name, minted)), SetSecret(name, versioned))
  }

  lemma {:induction false} PerformAppend(st: State, actions: seq<Action>, more: seq<Action>)
    ensures PerformAll(st, actions + more) == PerformAll(PerformAll(st, actions), more)
    decreases |more|
  {
    if more == [] {
      assert actions + more == actions;
    } else {
      assert (actions + more)[..|actions + more| - 1] == actions + more[..|more| - 1];
      PerformAppend(st, actions, more[..|more| - 1]);
    }
  }

  /** Neither a restart nor the console touches rows or secrets. */
  lemma {:induction false} AftermathKeeps(st: State, actions: seq<Action>)
    requires forall a :: a in actions ==> a.Restart? || a.LookUpConsole? || a.SetConsole?
    ensures PerformAll(st, actions).rows == st.rows && PerformAll(st, actions).secrets == st.secrets
    ensures (forall a :: a in actions ==> !a.SetConsole?) ==> PerformAll(st, actions).console == st.console
  {
    if actions != [] {
      assert actions[|actions| - 1] in actions;
      AftermathKeeps(st, actions[..|actions| - 1]);
    }
  }

  lemma RotateUnfolded(st: State, name: string, spec: Spec, minted: string, versioned: string,
                       consumer: Option<string>, calls: nat)
    requires name in st.rows && calls <= 3
    ensures calls <= |RotateScript(st, name, spec, minted, versioned, consumer)|
    ensures PerformAll(st, RotateScript(st, name, spec, minted, versioned, consumer)[..calls])
            == RotateState(st, name, spec, minted, versioned, calls)
  {
    var s := RotateScript(st, name, spec, minted, versioned, consumer);
    if calls == 1 {
      assert s[..1] == [s[0]];
      PerformOne(st, s[0]);
    } else if calls == 2 {
      assert s[..2] == [s[0], s[1]];
      PerformTwo(st, s[0], s[1]);
    } else if calls == 3 {
      assert s[..3] == [s[0], s[1], s[2]];
      PerformThree(st, s[0], s[1], s[2]);
    }
  }

  /** After the third call rows and secrets stand; the console changes with the last call. */
  lemma RotationSettles(st: State, name: string, spec: Spec, minted: string, versioned: string,
                        consumer: Option<string>, calls: nat)
    requires name in st.rows && 3 <= calls <= |RotateScript(st, name, spec, minted, versioned, consumer)|
    ensures var s := RotateScript(st, name, spec, minted, versioned, consumer);
            var st3, st' := RotateState(st, name, spec, minted, versioned, 3), PerformAll(st, s[..calls]);
            && st'.rows == st3.rows && st'.secrets == st3.secrets
            && st'.console == if calls == |s| && spec.base in st.console then st.console[spec.base := minted]
               else st.console
  {
    var st3 := RotateState(st, name, spec, minted, versioned, 3);
    assert st3.console == st.console;
    RotateThenAftermath(st, name, spec, minted, versioned, consumer, calls);
    AftermathFrom(st, st3, spec, minted, consumer, calls - 3);
  }

  lemma AftermathFrom(st: State, st3: State, spec: Spec, minted: string, consumer: Option<string>, k: nat)
    requires k <= |Aftermath(st, spec, minted, consumer)| && st3.console == st.console
    ensures var tail := Aftermath(st, spec, minted, consumer);
            var st' := PerformAll(st3, tail[..k]);
            && st'.rows == st3.rows && st'.secrets == st3.secrets
            && st'.console == if k == |tail| && spec.base in st.console then st.console[spec.base := minted]
               else st.console
  {
    AftermathShape(st, spec, minted, consumer);
    AftermathEffect(st3, st.console, spec, minted, Aftermath(st, spec, minted, consumer), k);
  }

  lemma RotateThenAftermath(st: State, name: string, spec: Spec, minted: string, versioned: string,
                            consumer: Option<string>, calls: nat)
    requires name in st.rows && 3 <= calls <= |RotateScript(st, name, spec, minted, versioned, consumer)|
    ensures |RotateScript(st, name, spec, minted, versioned, consumer)| == 3 + |Aftermath(st, spec, minted, consumer)|
    ensures PerformAll(st, RotateScript(st, name, spec, minted, versioned, consumer)[..calls])
            == PerformAll(RotateState(st, name, spec, minted, versioned, 3),
              Aftermath(st, spec, minted, consumer)[..calls - 3])
  {
    var s, tail := RotateScript(st, name, spec, minted, versioned, consumer), Aftermath(st, spec, minted, consumer);
    RotateUnfolded(st, name, spec, minted, versioned, consumer, 3);
    assert s[..calls] == s[..3] + tail[..calls - 3];
    PerformAppend(st, s[..3], tail[..calls - 3]);
  }

  lemma AftermathShape(st: State, spec: Spec, minted: string, consumer: Option<string>)
    ensures var tail := Aftermath(st, spec, minted, consumer);
            && tail != []
            && (forall i :: 0 <= i < |tail| ==> tail[i].Restart? || tail[i].LookUpConsole? || tail[i].SetConsole?)
            && (forall i :: 0 <= i < |tail| - 1 ==> !tail[i].SetConsole?)
            && tail[|tail| - 1] == if spec.base in st.console then SetConsole(spec.base, minted)
               else LookUpConsole(spec.base)
  {
  }

  lemma AftermathEffect(st: State, console: map<string, string>, spec: Spec, minted: string, tail: seq<Action>, k: nat)
    requires k <= |tail| && st.console == console && tail != []
    requires forall i :: 0 <= i < |tail| ==> tail[i].Restart? || tail[i].LookUpConsole? || tail[i].SetConsole?
    requires forall i :: 0 <= i < |tail| - 1 ==> !tail[i].SetConsole?
    requires tail[|tail| - 1] == if spec.base in console then SetConsole(spec.base, minted)
             else LookUpConsole(spec.base)
    ensures var st' := PerformAll(st, tail[..k]);
            && st'.rows == st.rows && st'.secrets == st.secrets
            && st'.console == if k == |tail| && spec.base in console then console[spec.base := minted] else console
  {
    AftermathKeeps(st, tail[..k]);
    if k == |tail| && spec.base in console {
      var init := tail[..k - 1];
      assert tail[..k][..k - 1] == init && tail[..k][k - 1] == SetConsole(spec.base, minted);
      AftermathKeeps(st, init);
    }
  }

  lemma {:induction false} RestartsIn(st: State, actions: seq<Action>)
    requires forall a :: a in actions ==> !a.Restart?
    ensures PerformAll(st, actions).restarted == st.restarted
  {
    if actions != [] {
      assert actions[|actions| - 1] in actions;
      RestartsIn(st, actions[..|actions| - 1]);
    }
  }

  /** The consuming service, if there is one, is restarted once, right after the row names
      the new secret; nothing else ever is. */
  lemma RotationRestarts(st: State, name: string, spec: Spec, minted: string, versioned: string,
                         consumer: Option<string>, calls: nat)
    requires name in st.rows && calls <= |RotateScript(st, name, spec, minted, versioned, consumer)|
    ensures PerformAll(st, RotateScript(st, name, spec, minted, versioned, consumer)[..calls]).restarted
            == st.restarted + if consumer.Some? && calls >= 4 then [consumer.value] else []
  {
    var s := RotateScript(st, name, spec, minted, versioned, consumer);
    if consumer.Some? && calls >= 4 {
      assert s[..calls] == s[..3] + [s[3]] + s[4..calls];
      assert s[3] == Restart(consumer.value);
      PerformAppend(st, s[..3] + [s[3]], s[4..calls]);
      PerformAppend(st, s[..3], [s[3]]);
      RestartsIn(st, s[..3]);
      PerformOne(PerformAll(st, s[..3]), s[3]);
      RestartsIn(PerformAll(st, s[..3] + [s[3]]), s[4..calls]);
    } else {
      RestartsIn(st, s[..calls]);
    }
  }

  lemma CompleteRotationRestarts(st: State, name: string, spec: Spec, minted: string, versioned: string,
                                 consumer: Option<string>)
    requires name in st.rows
    ensures PerformAll(st, RotateScript(st, name, spec, minted, versioned, consumer)).restarted
            == st.restarted + if consumer.Some? then [consumer.value] else []
  {
    var s := RotateScript(st, name, spec, minted, versioned, consumer);
    assert s[..|s|] == s;
    RotationRestarts(st, name, spec, minted, versioned, consumer, |s|);
  }

  /** A rotation never leaves the row pointing at nothing, wherever it is cut off. */
  lemma RotationNeverDangles(st: State, name: string, spec: Spec, minted: string, versioned: string,
                             consumer: Option<string>, calls: nat)
    requires name in st.rows && !Dangles(st, name)
    requires calls <= |RotateScript(st, name, spec, minted, versioned, consumer)|
    ensures !Dangles(PerformAll(st, RotateScript(st, name, spec, minted, versioned, consumer)[..calls]), name)
  {
    if calls <= 3 {
      RotateUnfolded(st, name, spec, minted, versioned, consumer, calls);
    } else {
      RotationSettles(st, name, spec, minted, versioned, consumer, calls);
    }
  }

  /** A rotation that got as far as naming the new secret has put the new password in
      place, if the versioned name was new: a restart that then fails takes nothing back. */
  lemma RotationCompletes(st: State, name: string, spec: Spec, minted: string, versioned: string,
                          consumer: Option<string>, calls: nat)
    requires name in st.rows && versioned !in st.secrets
    requires 3 <= calls <= |RotateScript(st, name, spec, minted, versioned, consumer)|
    ensures var st' := PerformAll(st, RotateScript(st, name, spec, minted, versioned, consumer)[..calls]);
            && Agrees(st', name, spec) && st'.rows[name].password == minted && st'.rows[name].secret == versioned
            && versioned in st'.secrets
            && st'.secrets[versioned] == if spec.format.Plain? then PasswordOnly(minted)
                                         else UserLine(st.rows[name].username, minted)
  {
    RotationSettles(st, name, spec, minted, versioned, consumer, calls);
  }

  /** There is one window in which row and swarm disagree: after the password is stored and
      before the row names the new secret. Everywhere else they agree. */
  lemma RotationWindow(st: State, name: string, spec: Spec, minted: string, versioned: string,
                       consumer: Option<string>, calls: nat)
    requires Agrees(st, name, spec) && versioned !in st.secrets && minted != st.rows[name].password
    requires calls <= |RotateScript(st, name, spec, minted, versioned, consumer)|
    ensures Agrees(PerformAll(st, RotateScript(st, name, spec, minted, versioned, consumer)[..calls]), name, spec)
            <==> calls != 2
  {
    if calls <= 3 {
      RotateUnfolded(st, name, spec, minted, versioned, consumer, calls);
    } else {
      RotationSettles(st, name, spec, minted, versioned, consumer, calls);
    }
  }

  /** The console reveals the row's password, or nothing. */
  predicate ConsoleMatches(st: State, name: string, spec: Spec) {
    name in st.rows && (spec.base in st.console ==> st.console[spec.base] == st.rows[name].password)
  }

  /** The console is stale from the moment the password is stored until the very last call:
      a restart that fails leaves it revealing the old password. */
  lemma ConsoleWindow(st: State, name: string, spec: Spec, minted: string, versioned: string,
                      consumer: Option<string>, calls: nat)
    requires ConsoleMatches(st, name, spec) && spec.base in st.console && minted != st.rows[name].password
    requires calls <= |RotateScript(st, name, spec, minted, versioned, consumer)|
    ensures var s := RotateScript(st, name, spec, minted, versioned, consumer);
            ConsoleMatches(PerformAll(st, s[..calls]), name, spec) <==> calls < 2 || calls == |s|
  {
    if calls < 3 {
      RotateUnfolded(st, name, spec, minted, versioned, consumer, calls);
    } else {
      RotationSettles(st, name, spec, minted, versioned, consumer, calls);
    }
  }

  // ---- ensure -------------------------------------------------------------

  /** The row after the first `calls` calls of an `ensure` over an existing row. */
  function EnsuredRow(row: Row, spec: Spec, username: string, minted: string, calls: nat): Row {
    if username == "" || username == row.username then row
    else if spec.observability then
      if calls == 0 then row
      else if calls == 1 then row.(password := minted)
      else row.(password := minted, username := username)
    else if calls < 2 then row else row.(username := username)
  }

  lemma EnsureUnfolded(st: State, name: string, spec: Spec, username: string, minted: string, calls: nat)
    requires name in st.rows && st.rows[name].secret in st.secrets
    requires calls <= |EnsureScript(st, name, spec, username, minted)|
    ensures PerformAll(st, EnsureScript(st, name, spec, username, minted)[..calls]) ==
            st.(rows := st.rows[name := EnsuredRow(st.rows[name], spec, username, minted, calls)])
  {
    var s := EnsureScript(st, name, spec, username, minted);
    assert st.rows[name := st.rows[name]] == st.rows;
    if calls == 1 {
      assert s[..1] == [s[0]];
      PerformOne(st, s[0]);
    } else if calls == 2 {
      assert s[..2] == [s[0], s[1]];
      PerformTwo(st, s[0], s[1]);
    } else if calls == 3 {
      assert s[..3] == [s[0], s[1], s[2]];
      PerformThree(st, s[0], s[1], s[2]);
    }
  }

  /** An `ensure` cut off anywhere, over a row whose secret exists, leaves row and secret in
      agreement exactly when what it has stored so far is what the secret holds: a secret
      is never rewritten. */
  lemma EnsureWindow(st: State, name: string, spec: Spec, username: string, minted: string, calls: nat)
    requires Agrees(st, name, spec) && calls <= |EnsureScript(st, name, spec, username, minted)|
    ensures var row := st.rows[name];
            Agrees(PerformAll(st, EnsureScript(st, name, spec, username, minted)[..calls]), name, spec) <==>
              || username == "" || username == row.username
              || ((spec.observability && calls >= 1 ==> minted == row.password) && (calls >= 2 ==> spec.format.Plain?))
  {
    EnsureUnfolded(st, name, spec, username, minted, calls);
  }

  /** A complete `ensure` therefore keeps agreement exactly when the value to store is the
      value the secret already holds. */
  lemma EnsureKeepsAgreement(st: State, name: string, spec: Spec, username: string, minted: string)
    requires Agrees(st, name, spec)
    ensures var row := st.rows[name];
            var changed := username != "" && username != row.username;
            Agrees(PerformAll(st, EnsureScript(st, name, spec, username, minted)), name, spec) <==>
              !changed || ((spec.observability ==> minted == row.password) && spec.format.Plain?)
  {
    var s := EnsureScript(st, name, spec, username, minted);
    assert s[..|s|] == s;
    EnsureWindow(st, name, spec, username, minted, |s|);
  }

  /** Minting, cut off anywhere: between its two calls the row names a secret that is not
      there, unless one of that name was; and row and secret agree once both calls were
      made, or as soon as the row is there if an old secret happens to hold its value. */
  lemma MintWindow(st: State, name: string, spec: Spec, username: string, minted: string, calls: nat)
    requires name !in st.rows && calls <= 2
    ensures calls <= |EnsureScript(st, name, spec, username, minted)|
    ensures var st' := PerformAll(st, EnsureScript(st, name, spec, username, minted)[..calls]);
            && (Dangles(st', name) <==> calls == 1 && spec.base !in st.secrets)
            && (Agrees(st', name, spec) <==>
                  if spec.base in st.secrets
                  then calls >= 1 && st.secrets[spec.base] == Serialise(spec.format, username, minted)
                  else calls == 2)
  {
    var s := EnsureScript(st, name, spec, username, minted);
    if calls == 1 {
      assert s[..1] == [s[0]];
      PerformOne(st, s[0]);
    } else if calls == 2 {
      assert s[..2] == [s[0], s[1]];
      PerformTwo(st, s[0], s[1]);
    }
  }

  /** A newly minted credential agrees with its secret when no secret of that name was there. */
  lemma EnsureMints(st: State, name: string, spec: Spec, username: string, minted: string)
    requires name !in st.rows && spec.base !in st.secrets
    ensures Agrees(PerformAll(st, EnsureScript(st, name, spec, username, minted)), name, spec)
  {
    var s := EnsureScript(st, name, spec, username, minted);
    MintWindow(st, name, spec, username, minted, 2);
    assert s[..2] == s;
  }

  /** Healing finishes an interrupted minting: the state is the one minting would have
      reached. */
  lemma MaterialiseFinishesMint(st: State, name: string, spec: Spec, username: string, minted: string)
    requires name !in st.rows
    ensures var s := EnsureScript(st, name, spec, username, minted);
            var st' := PerformAll(st, s[..1]);
            PerformAll(st', MaterialiseScript(st', name, spec)) == PerformAll(st, s)
  {
    var s := EnsureScript(st, name, spec, username, minted);
    assert s[..1] == [s[0]];
    PerformOne(st, s[0]);
    PerformTwo(st, s[0], s[1]);
    var st' := Perform(st, s[0]);
    assert MaterialiseScript(st', name, spec) == [s[1]];
    PerformOne(st', s[1]);
  }

  /** Healing a wiped swarm: the secret comes back with the row's own value, and the row is
      not touched. */
  lemma MaterialiseHeals(st: State, name: string, spec: Spec)
    requires Dangles(st, name)
    ensures var st' := PerformAll(st, MaterialiseScript(st, name, spec));
            Agrees(st', name, spec) && st'.rows == st.rows
  {
    assert MaterialiseScript(st, name, spec)[..0] == [];
  }

  // ---- the manager --------------------------------------------------------

  /** The credentials the platform manages. */
  const SPECS: map<string, Spec> := map[
    "traefik_dashboard" := Spec("admin_credentials", Htpasswd, false),
    "observability_admin" := Spec("observability_admin_password", Plain, true),
    "edge_admin" := Spec("edge_admin_password", Plain, false),
    "edge_ui_secret" := Spec("edge_ui_secret", Plain, false),
    "edge_api_token" := Spec("edge_api_token", Plain, false),
    "sso_cookie_secret" := Spec("sso_cookie_secret", Plain, false),
    "seaweedfs_admin" := Spec("seaweedfs_credentials", Plain, false)
  ]

  /** The service that mounts each credential's secret. */
  const CONSUMERS: map<string, string> := map[
    "traefik_dashboard" := "infra_traefik",
    "observability_admin" := "observability_parseable",
    "sso_cookie_secret" := "sso_oauth2-proxy",
    "seaweedfs_admin" := "backup_seaweedfs"
  ]

  /** The service a rotation restarts, if the manager has the means to. */
  function ConsumerOf(name: string, deployer: bool): Option<string> {
    if deployer && name in CONSUMERS then Some(CONSUMERS[name]) else None
  }

  /** The store and the swarm behind one manager. `failAt` is the first call that errors:
      the operation returns there, and what was called before it stands. */
  class Manager {
    var st: State

    constructor (st: State)
      ensures this.st == st
    {
      this.st := st;
    }

    /** Makes the calls of a script in order, up to the one that fails. */
    method Execute(script: seq<Action>, failAt: nat) returns (ok: bool)
      modifies this
      ensures ok <==> |script| <= failAt
      ensures st == PerformAll(old(st), if failAt <= |script| then script[..failAt] else script)
      ensures ok ==> st == PerformAll(old(st), script)
    {
      for i := 0 to |script|
        invariant i <= failAt
        invariant st == PerformAll(old(st), script[..i])
      {
        if i == failAt {
          return false;
        }
        assert script[..i + 1][..i] == script[..i];
        st := Perform(st, script[i]);
      }
      assert script[..|script|] == script;
      ok := true;
    }

    method Ensure(name: string, username: string, minted: string, failAt: nat) returns (ok: bool)
      modifies this
      ensures name !in SPECS ==> !ok && st == old(st)
      ensures name in SPECS ==>
                var op := Op.Ensure(name, SPECS[name], username, minted);
                st == Cut(old(st), Attempt(op, failAt)) && (ok <==> |Script(old(st), op)| <= failAt)
    {
      if name !in SPECS {
        return false;
      }
      ok := Execute(EnsureScript(st, name, SPECS[name], username, minted), failAt);
    }

    method EnsureMaterialized(name: string, failAt: nat) returns (ok: bool)
      modifies this
      ensures name !in SPECS ==> !ok && st == old(st)
      ensures name in SPECS ==>
                var op := Materialise(name, SPECS[name]);
                st == Cut(old(st), Attempt(op, failAt)) && (ok <==> |Script(old(st), op)| <= failAt)
    {
      if name !in SPECS {
        return false;
      }
      ok := Execute(MaterialiseScript(st, name, SPECS[name]), failAt);
    }

    /** The daemon's own token is never rotated; an unknown or missing credential is an
        error before anything is called. Success means every call was made, the restart and
        the console's copy included. */
    method Rotate(name: string, minted: string, versioned: string, deployer: bool, failAt: nat) returns (ok: bool)
      modifies this
      ensures name == "edge_api_token" || name !in SPECS || name !in old(st).rows ==> !ok && st == old(st)
      ensures name != "edge_api_token" && name in SPECS && name in old(st).rows ==>
                var op := Op.Rotate(name, SPECS[name], minted, versioned, ConsumerOf(name, deployer));
                st == Cut(old(st), Attempt(op, failAt)) && (ok <==> |Script(old(st), op)| <= failAt)
      ensures ok ==> st.restarted == old(st).restarted + if deployer && name in CONSUMERS then [CONSUMERS[name]] else []
    {
      if name == "edge_api_token" || name !in st.rows || name !in SPECS {
        return false;
      }
      ok := Execute(RotateScript(st, name, SPECS[name], minted, versioned, ConsumerOf(name, deployer)), failAt);
      CompleteRotationRestarts(old(st), name, SPECS[name], minted, versioned, ConsumerOf(name, deployer));
    }
  }
}
