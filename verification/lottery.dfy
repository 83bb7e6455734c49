/** The registration state machine of the lottery: the module globals
    (registrant set, deadline, last autosave time, log file, timer file)
    gathered into one immutable state, with the registration step, the
    registration window, the winner decision and the start-up sequence as
    operations on it. Time is a whole number of seconds; the moments at
    which the program reads the clock are supplied with each input line. */
module Lottery {
  import opened Text
  import opened Names
  import opened Log

  const RegistrationDuration: int := 3600
  const ExtensionDuration: int := 1800
  const MinUsers: nat := 5
  const AutosaveInterval: int := 2

  /** `timer_state.txt`: missing, holding text that does not parse as a
      date, or holding a saved deadline. */
  datatype TimerFile = Absent | Unreadable | Saved(deadline: int)

  datatype State = State(
    registrants: set<string>,
    deadline: int,
    lastAutosave: int,
    log: seq<string>,
    timer: TimerFile)

  /** One line typed at the prompt: `prompted` is the clock reading of the
      loop test that led to the prompt, `answered` the reading taken after
      the line was entered (the autosave test and the autosave itself). */
  datatype Attempt = Attempt(prompted: int, entered: string, answered: int)

  datatype Rejection = EmptyName | NotLettersAndSpaces | AlreadyRegistered

  datatype Decision = Accept(name: string) | Reject(reason: Rejection)

  datatype Outcome = Winner(name: string) | NoWinner

  /** The checks of `register_user` on one entered line, in their order:
      blank, then not letters and spaces, then already registered under its
      canonical key. An accepted name is the key and is new. */
  function Decide(registrants: set<string>, entered: string): (d: Decision)
    ensures d.Accept? ==> d.name == Key(entered) && d.name !in registrants
  {
    var username := Strip(entered);
    var formatted := Canonical(username);
    if username == [] then Reject(EmptyName)
    else if !IsValidUsername(username) then Reject(NotLettersAndSpaces)
    else if formatted in registrants then Reject(AlreadyRegistered)
    else Accept(formatted)
  }

  /** Validity does not depend on the outer whitespace the prompt strips. */
  lemma ValidityIgnoresStrip(entered: string)
    ensures IsValidUsername(Strip(entered)) == IsValidUsername(entered)
  {
    StripIdempotent(entered);
  }

  /** A line is refused as empty exactly when it is blank. */
  lemma DecideBlank(registrants: set<string>, entered: string)
    ensures Decide(registrants, entered) == Reject(EmptyName) <==> Strip(entered) == []
  {
  }

  /** A line is refused for its characters exactly when, once stripped, it
      is non-blank and holds something other than ASCII letters and spaces. */
  lemma DecidePattern(registrants: set<string>, entered: string)
    ensures Decide(registrants, entered) == Reject(NotLettersAndSpaces)
            <==> Strip(entered) != [] && !AllNameChars(Strip(entered))
  {
    StripIdempotent(entered);
  }

  /** A line is refused as a duplicate exactly when it is valid and its key
      is already registered. */
  lemma DecideDuplicate(registrants: set<string>, entered: string)
    ensures Decide(registrants, entered) == Reject(AlreadyRegistered)
            <==> IsValidUsername(entered) && Key(entered) in registrants
  {
    ValidityIgnoresStrip(entered);
  }

  /** A line is accepted exactly when it is valid and its key is new; what
      is accepted has the canonical shape. */
  lemma DecideAccept(registrants: set<string>, entered: string)
    ensures Decide(registrants, entered).Accept?
            <==> IsValidUsername(entered) && Key(entered) !in registrants
    ensures Decide(registrants, entered).Accept? ==> IsCanonicalName(Decide(registrants, entered).name)
  {
    ValidityIgnoresStrip(entered);
    if IsValidUsername(entered) {
      ValidKeyIsCanonical(entered);
    }
  }

  /** The last line of the log. */
  function LastLine(log: seq<string>): string
    requires log != []
  {
    log[|log| - 1]
  }

  /** The log without its last line. */
  function BeforeLast(log: seq<string>): (init: seq<string>)
    requires log != []
    ensures init + [LastLine(log)] == log
  {
    log[..|log| - 1]
  }

  /** The line `pick_winner` appends for an outcome. */
  function Verdict(outcome: Outcome): string {
    if outcome.Winner? then WinnerLine(outcome.name) else Sentinel
  }

  /** Adding a name that is not yet registered grows the set by one. */
  lemma AddNewName(registrants: set<string>, name: string)
    requires name !in registrants
    ensures |registrants + {name}| == |registrants| + 1
  {
  }

  /** One pass through the `register_user` loop body: decide on the entered
      line; on acceptance add the key, autosave when at least
      `AutosaveInterval` seconds have passed since the last autosave, and
      save the deadline to the timer file. */
  method Step(st: State, a: Attempt) returns (st': State, d: Decision)
    ensures d == Decide(st.registrants, a.entered)
    ensures d.Reject? ==> st' == st
    ensures d.Accept? ==> st'.registrants == st.registrants + {d.name}
    ensures d.Accept? ==> |st'.registrants| == |st.registrants| + 1
    ensures d.Accept? ==> st'.timer == Saved(st.deadline)
    ensures st'.deadline == st.deadline
    ensures st'.lastAutosave != st.lastAutosave <==> d.Accept? && a.answered - st.lastAutosave >= AutosaveInterval
    ensures st'.lastAutosave != st.lastAutosave ==> st'.lastAutosave == a.answered && IsListing(st'.log, st'.registrants)
    ensures st'.lastAutosave == st.lastAutosave ==> st'.log == st.log
  {
    d := Decide(st.registrants, a.entered);
    st' := st;
    if d.Accept? {
      AddNewName(st.registrants, d.name);
      st' := st'.(registrants := st'.registrants + {d.name});
      if a.answered - st'.lastAutosave >= AutosaveInterval {
        var lines := Autosave(st'.registrants);
        st' := st'.(log := lines, lastAutosave := a.answered);
      }
      st' := st'.(timer := Saved(st'.deadline));
    }
  }

  /** The canonical keys of the valid lines among `attempts`. */
  function ValidKeys(attempts: seq<Attempt>): set<string> {
    if attempts == [] then {}
    else
      var init, a := attempts[..|attempts| - 1], attempts[|attempts| - 1];
      ValidKeys(init) + (if IsValidUsername(a.entered) then {Key(a.entered)} else {})
  }

  lemma ValidKeysAppend(attempts: seq<Attempt>, a: Attempt)
    ensures ValidKeys(attempts + [a]) == ValidKeys(attempts) + (if IsValidUsername(a.entered) then {Key(a.entered)} else {})
  {
    assert (attempts + [a])[..|attempts|] == attempts;
  }

  lemma ValidKeysPrefix(attempts: seq<Attempt>, n: nat)
    requires n < |attempts|
    ensures ValidKeys(attempts[..n + 1])
            == ValidKeys(attempts[..n])
               + (if IsValidUsername(attempts[n].entered) then {Key(attempts[n].entered)} else {})
  {
    assert attempts[..n + 1] == attempts[..n] + [attempts[n]];
    ValidKeysAppend(attempts[..n], attempts[n]);
  }

  lemma {:induction false} ValidKeysConcat(xs: seq<Attempt>, ys: seq<Attempt>)
    ensures ValidKeys(xs + ys) == ValidKeys(xs) + ValidKeys(ys)
    decreases |ys|
  {
    if ys != [] {
      var init, a := ys[..|ys| - 1], ys[|ys| - 1];
      assert ys == init + [a];
      assert xs + ys == (xs + init) + [a];
      ValidKeysConcat(xs, init);
      ValidKeysAppend(xs + init, a);
      ValidKeysAppend(init, a);
    } else {
      assert xs + ys == xs;
    }
  }

  /** All lines before position `n` were prompted before `deadline`. */
  predicate PromptedBefore(attempts: seq<Attempt>, n: nat, deadline: int)
    requires n <= |attempts|
  {
    forall i :: 0 <= i < n ==> attempts[i].prompted < deadline
  }

  /** One more line prompted before `deadline`. (`m` is passed separately from its sum so that callers need no
      arithmetic to match it.) */
  lemma PromptedExtend(attempts: seq<Attempt>, n: nat, m: nat, deadline: int)
    requires m == n + 1 && n < |attempts| && PromptedBefore(attempts, n, deadline)
    requires attempts[n].prompted < deadline
    ensures PromptedBefore(attempts, m, deadline)
  {
  }

  /** Scanning `u` more lines from position `n` on. (`m` is passed separately from its sum so that callers need no
      arithmetic to match it.) */
  lemma PromptedJoin(attempts: seq<Attempt>, n: nat, u: nat, m: nat, deadline: int)
    requires m == n + u && m <= |attempts| && PromptedBefore(attempts, n, deadline)
    requires PromptedBefore(attempts[n..], u, deadline)
    ensures PromptedBefore(attempts, m, deadline)
  {
    forall i | n <= i < m ensures attempts[i].prompted < deadline {
      assert attempts[i] == attempts[n..][i - n];
    }
  }

  /** All lines from position `lo` up to `hi` were prompted before
      `deadline`. */
  predicate PromptedBetween(attempts: seq<Attempt>, lo: nat, hi: nat, deadline: int)
    requires lo <= hi <= |attempts|
  {
    forall i :: lo <= i < hi ==> attempts[i].prompted < deadline
  }

  /** A scan of `u` lines of `attempts[lo..]` that stopped at `deadline`,
      seen as a scan of `attempts` from `lo` to `hi`. (`hi` is passed
      separately from `lo + u` so that callers need no arithmetic to match
      it.) */
  lemma PromptedShift(attempts: seq<Attempt>, lo: nat, u: nat, hi: nat, deadline: int)
    requires hi == lo + u && hi <= |attempts|
    requires PromptedBefore(attempts[lo..], u, deadline)
    requires u == |attempts[lo..]| || attempts[lo..][u].prompted >= deadline
    ensures PromptedBetween(attempts, lo, hi, deadline)
    ensures hi == |attempts| || attempts[hi].prompted >= deadline
  {
    forall i | lo <= i < hi ensures attempts[i].prompted < deadline {
      assert attempts[i] == attempts[lo..][i - lo];
    }
    if hi < |attempts| {
      assert attempts[hi] == attempts[lo..][u];
    }
  }

  /** Reading `n` lines and then `u` more, `m` in all, adds the keys of all
      `m`. (`m` is passed separately from its sum so that callers need no
      arithmetic to match it.) */
  lemma ValidKeysSplit(registrants: set<string>, attempts: seq<Attempt>, n: nat, u: nat, m: nat)
    requires m == n + u && m <= |attempts|
    ensures (registrants + ValidKeys(attempts[..n])) + ValidKeys(attempts[n..][..u])
            == registrants + ValidKeys(attempts[..m])
  {
    assert attempts[..m] == attempts[..n] + attempts[n..][..u];
    ValidKeysConcat(attempts[..n], attempts[n..][..u]);
  }

  /** Every decision leaves the registrant set equal to the old set plus the
      line's key when the line is valid: an accepted key is new, a duplicate
      key is already there, and an invalid line contributes nothing. */
  lemma DecisionAddsValidKey(registrants: set<string>, a: Attempt)
    ensures var d := Decide(registrants, a.entered);
            (if d.Accept? then registrants + {d.name} else registrants)
            == registrants + (if IsValidUsername(a.entered) then {Key(a.entered)} else {})
  {
    var d := Decide(registrants, a.entered);
    DecideAccept(registrants, a.entered);
    DecideDuplicate(registrants, a.entered);
    if d.Accept? {
      assert IsValidUsername(a.entered) && d.name == Key(a.entered);
    } else if IsValidUsername(a.entered) {
      assert Key(a.entered) in registrants;
    }
  }

  /** Reading one more line adds to the registrants exactly what deciding
      on that line adds, provided the earlier lines added nothing.
      (`m` is passed separately from its sum so that callers need no
      arithmetic to match it.) */
  lemma DecisionExtendsValidKeys(registrants: set<string>, attempts: seq<Attempt>, n: nat, m: nat)
    requires m == n + 1 && n < |attempts| && registrants + ValidKeys(attempts[..n]) == registrants
    ensures var d := Decide(registrants, attempts[n].entered);
            registrants + ValidKeys(attempts[..m])
            == (if d.Accept? then registrants + {d.name} else registrants)
  {
    ValidKeysPrefix(attempts, n);
    DecisionAddsValidKey(registrants, attempts[n]);
  }

  /** The `used`-th line read is accepted and every line before it added
      nothing to `registrants`. */
  predicate AcceptedLast(registrants: set<string>, attempts: seq<Attempt>, used: nat)
    requires 0 < used <= |attempts|
  {
    && ValidKeys(attempts[..used - 1]) <= registrants
    && Decide(registrants, attempts[used - 1].entered) == Accept(Key(attempts[used - 1].entered))
  }

  /** Establishes `AcceptedLast` for the line at `n`. The predicate and this
      lemma exist so that the contract of `RegisterUser` can speak of line
      `used - 1` without the solver having to relate it to `n`. */
  lemma AcceptedLastIntro(registrants: set<string>, attempts: seq<Attempt>, n: nat, m: nat)
    requires m == n + 1 && n < |attempts|
    requires registrants + ValidKeys(attempts[..n]) == registrants
    requires Decide(registrants, attempts[n].entered).Accept?
    ensures AcceptedLast(registrants, attempts, m)
  {
    DecideAccept(registrants, attempts[n].entered);
  }

  /** The accepting step of `register_user` (the `used`-th line read)
      autosaves exactly when `AutosaveInterval` seconds have passed since
      the last autosave at the moment that line was answered, and the
      autosave writes a listing of the new registrant set. */
  ghost predicate AutosavedAsLast(st: State, st': State, attempts: seq<Attempt>, used: nat)
    requires 0 < used <= |attempts|
  {
    var answered := attempts[used - 1].answered;
    && (st'.lastAutosave != st.lastAutosave <==> answered - st.lastAutosave >= AutosaveInterval)
    && (st'.lastAutosave != st.lastAutosave ==> st'.lastAutosave == answered && IsListing(st'.log, st'.registrants))
  }

  /** Establishes `AutosavedAsLast` for the line at `n`; it only restates
      the predicate, for the same reason as `AcceptedLastIntro`. */
  lemma AutosavedAsLastIntro(st: State, st': State, attempts: seq<Attempt>, n: nat, m: nat)
    requires m == n + 1 && n < |attempts|
    requires st'.lastAutosave != st.lastAutosave <==> attempts[n].answered - st.lastAutosave >= AutosaveInterval
    requires st'.lastAutosave != st.lastAutosave ==>
               st'.lastAutosave == attempts[n].answered && IsListing(st'.log, st'.registrants)
    ensures AutosavedAsLast(st, st', attempts, m)
  {
  }

  /** `register_user`: keeps prompting while the deadline has not passed and
      returns after the first accepted name. `used` is the number of lines
      it read. */
  method RegisterUser(st: State, attempts: seq<Attempt>) returns (st': State, used: nat)
    ensures used <= |attempts|
    ensures PromptedBefore(attempts, used, st.deadline)
    ensures st'.registrants == st.registrants + ValidKeys(attempts[..used])
    ensures st'.deadline == st.deadline
    ensures st'.registrants == st.registrants ==> st' == st
    ensures st'.registrants == st.registrants ==> used == |attempts| || attempts[used].prompted >= st.deadline
    ensures st'.registrants != st.registrants ==>
              && 0 < used
              && AcceptedLast(st.registrants, attempts, used)
              && AutosavedAsLast(st, st', attempts, used)
              && |st'.registrants| == |st.registrants| + 1
              && st'.timer == Saved(st.deadline)
    ensures st'.lastAutosave == st.lastAutosave ==> st'.log == st.log
    ensures st'.lastAutosave >= st.lastAutosave
  {
    st' := st;
    used := 0;
    while used < |attempts| && attempts[used].prompted < st.deadline
      invariant used <= |attempts|
      invariant PromptedBefore(attempts, used, st.deadline)
      invariant st.registrants + ValidKeys(attempts[..used]) == st.registrants
      invariant st' == st
      decreases |attempts| - used
    {
      var a, n, m := attempts[used], used, used + 1;
      PromptedExtend(attempts, n, m, st.deadline);
      DecisionExtendsValidKeys(st.registrants, attempts, n, m);
      var next, d := Step(st, a);
      used := m;
      if d.Accept? {
        AcceptedLastIntro(st.registrants, attempts, n, m);
        AutosavedAsLastIntro(st, next, attempts, n, m);
        st' := next;
        break;
      }
    }
  }

  /** What `cur` holds in its log since the state `st`: the same log when
      no autosave happened since, and otherwise, at least `AutosaveInterval`
      seconds later, a listing of a registrant set between the two. */
  ghost predicate SavedSince(st: State, cur: State) {
    && cur.lastAutosave >= st.lastAutosave
    && (cur.lastAutosave == st.lastAutosave ==> cur.log == st.log)
    && (cur.lastAutosave != st.lastAutosave ==>
          && cur.lastAutosave >= st.lastAutosave + AutosaveInterval
          && ListsBetween(cur.log, st.registrants, cur.registrants))
  }

  /** One call of `register_user` keeps `SavedSince`. */
  lemma SavedSinceStep(st: State, cur: State, next: State, rest: seq<Attempt>, u: nat)
    requires SavedSince(st, cur) && st.registrants <= cur.registrants
    requires u <= |rest|
    requires next.registrants == cur.registrants ==> next == cur
    requires next.registrants != cur.registrants ==> 0 < u && AutosavedAsLast(cur, next, rest, u)
    requires next.lastAutosave == cur.lastAutosave ==> next.log == cur.log
    requires cur.registrants <= next.registrants
    ensures SavedSince(st, next)
  {
    if next.lastAutosave != cur.lastAutosave {
      assert AutosavedAsLast(cur, next, rest, u);
      ListingListsBetween(next.log, next.registrants, st.registrants, next.registrants);
    }
  }

  /** The loop `while now < end_time: register_user()`: reads lines until the
      first one prompted at or after the deadline, or until none are left. */
  method Window(st: State, attempts: seq<Attempt>) returns (st': State, used: nat)
    ensures used <= |attempts|
    ensures PromptedBefore(attempts, used, st.deadline)
    ensures used == |attempts| || attempts[used].prompted >= st.deadline
    ensures st'.registrants == st.registrants + ValidKeys(attempts[..used])
    ensures st'.deadline == st.deadline
    ensures st'.registrants == st.registrants ==> st' == st
    ensures st'.registrants != st.registrants ==> st'.timer == Saved(st.deadline)
    ensures st'.lastAutosave == st.lastAutosave ==> st'.log == st.log
    ensures st'.lastAutosave != st.lastAutosave ==>
              && st'.lastAutosave >= st.lastAutosave + AutosaveInterval
              && ListsBetween(st'.log, st.registrants, st'.registrants)
    ensures st'.lastAutosave >= st.lastAutosave
  {
    st' := st;
    used := 0;
    while used < |attempts| && attempts[used].prompted < st.deadline
      invariant used <= |attempts|
      invariant PromptedBefore(attempts, used, st.deadline)
      invariant st'.registrants == st.registrants + ValidKeys(attempts[..used])
      invariant st'.deadline == st.deadline
      invariant st'.registrants == st.registrants ==> st' == st
      invariant st'.registrants != st.registrants ==> st'.timer == Saved(st.deadline)
      invariant SavedSince(st, st')
      decreases |attempts| - used
    {
      var rest := attempts[used..];
      assert rest[0].prompted < st'.deadline;
      assert ValidKeys(rest[..0]) == {} by {
        assert rest[..0] == [];
      }
      var next, u := RegisterUser(st', rest);
      assert 0 < u;
      var m := used + u;
      ValidKeysSplit(st.registrants, attempts, used, u, m);
      PromptedJoin(attempts, used, u, m, st.deadline);
      SavedSinceStep(st, st', next, rest, u);
      st', used := next, m;
    }
  }

  /** The first branch of `pick_winner`: a registrant is drawn (the choice is
      left open), a winner record is appended to the log and the timer file
      is removed. */
  method Draw(st: State) returns (st': State, winner: string)
    requires st.registrants != {}
    ensures winner in st.registrants
    ensures st'.log == st.log + [WinnerLine(winner)]
    ensures st'.timer == Absent
    ensures st'.registrants == st.registrants && st'.deadline == st.deadline && st'.lastAutosave == st.lastAutosave
  {
    winner :| winner in st.registrants;
    st' := st.(log := st.log + [WinnerLine(winner)], timer := Absent);
  }

  /** `pick_winner`: with enough registrants a winner is drawn at once.
      Otherwise the deadline is extended once and saved, registration
      reopens, and at its end either a winner is drawn (the recursive call,
      which then always takes its first branch) or the no-winner line is
      appended. */
  method PickWinner(st: State, attempts: seq<Attempt>) returns (st': State, outcome: Outcome, used: nat)
    ensures used <= |attempts|
    ensures st'.registrants == st.registrants + ValidKeys(attempts[..used])
    ensures outcome.Winner? ==>
              && outcome.name in st'.registrants
              && |st'.registrants| >= MinUsers
              && st'.timer == Absent
              && st'.log != [] && LastLine(st'.log) == WinnerLine(outcome.name)
    ensures |st.registrants| >= MinUsers ==>
              && outcome.Winner?
              && used == 0
              && st'.deadline == st.deadline
              && st'.lastAutosave == st.lastAutosave
              && st'.log == st.log + [WinnerLine(outcome.name)]
    ensures |st.registrants| < MinUsers ==>
              && st'.deadline == st.deadline + ExtensionDuration
              && PromptedBefore(attempts, used, st'.deadline)
              && (used == |attempts| || attempts[used].prompted >= st'.deadline)
              && (outcome.Winner? <==> |st'.registrants| >= MinUsers)
    ensures outcome.NoWinner? ==>
              && |st'.registrants| < MinUsers
              && st'.log != [] && LastLine(st'.log) == Sentinel
              && st'.timer == Saved(st'.deadline)
    ensures st'.lastAutosave >= st.lastAutosave
    ensures st'.lastAutosave == st.lastAutosave ==> st'.log == st.log + [Verdict(outcome)]
    ensures st'.lastAutosave != st.lastAutosave ==>
              && st'.log != []
              && ListsBetween(BeforeLast(st'.log), st.registrants, st'.registrants)
              && LastLine(st'.log) == Verdict(outcome)
  {
    if |st.registrants| >= MinUsers {
      var w;
      st', w := Draw(st);
      outcome, used := Winner(w), 0;
      assert attempts[..used] == [];
    } else {
      var extended := st.deadline + ExtensionDuration;
      var st1 := st.(deadline := extended, timer := Saved(extended));
      var st2;
      st2, used := Window(st1, attempts);
      if |st2.registrants| >= MinUsers {
        var w;
        st', w := Draw(st2);
        outcome := Winner(w);
      } else {
        st' := st2.(log := st2.log + [Sentinel]);
        outcome := NoWinner;
      }
    }
  }

  /** Start-up: the deadline comes from the timer file when it holds one and
      is one registration period after start otherwise; the registrants are
      reloaded from the log; the last autosave time is the start time. */
  method Startup(start: int, timer: TimerFile, log: seq<string>) returns (st: State)
    ensures st.registrants == Loaded(log)
    ensures timer.Saved? ==> st.deadline == timer.deadline
    ensures !timer.Saved? ==> st.deadline == start + RegistrationDuration
    ensures st.lastAutosave == start && st.log == log && st.timer == timer
  {
    var users := Reload(log);
    var deadline := if timer.Saved? then timer.deadline else start + RegistrationDuration;
    st := State(users, deadline, start, log, timer);
  }

  /** The main program without its interrupt handler: start up, run the
      registration window, then decide. The main window reads the first
      `mainUsed` lines; the extension, if any, reads the rest up to `used`. */
  method Run(start: int, timer: TimerFile, log: seq<string>, attempts: seq<Attempt>)
    returns (final: State, outcome: Outcome, mainUsed: nat, used: nat)
    ensures mainUsed <= used <= |attempts|
    ensures final.registrants == Loaded(log) + ValidKeys(attempts[..used])
    ensures var d0 := if timer.Saved? then timer.deadline else start + RegistrationDuration;
            && PromptedBefore(attempts, mainUsed, d0)
            && (mainUsed == |attempts| || attempts[mainUsed].prompted >= d0)
            && (final.deadline == d0 || final.deadline == d0 + ExtensionDuration)
    ensures var d0 := if timer.Saved? then timer.deadline else start + RegistrationDuration;
            |Loaded(log) + ValidKeys(attempts[..mainUsed])| >= MinUsers ==>
              && used == mainUsed
              && final.deadline == d0
              && outcome.Winner?
    ensures var d0 := if timer.Saved? then timer.deadline else start + RegistrationDuration;
            |Loaded(log) + ValidKeys(attempts[..mainUsed])| < MinUsers ==>
              && final.deadline == d0 + ExtensionDuration
              && PromptedBetween(attempts, mainUsed, used, final.deadline)
              && (used == |attempts| || attempts[used].prompted >= final.deadline)
    ensures outcome.Winner? ==>
              && outcome.name in final.registrants
              && |final.registrants| >= MinUsers
              && final.timer == Absent
              && final.log != [] && LastLine(final.log) == WinnerLine(outcome.name)
    ensures outcome.NoWinner? ==>
              && |final.registrants| < MinUsers
              && final.timer == Saved(final.deadline)
              && final.log != [] && LastLine(final.log) == Sentinel
    ensures final.lastAutosave == start ==> final.log == log + [Verdict(outcome)]
    ensures final.lastAutosave != start ==>
              && final.log != []
              && ListsBetween(BeforeLast(final.log), Loaded(log), final.registrants)
  {
    var st := Startup(start, timer, log);
    var u2;
    st, mainUsed := Window(st, attempts);
    var rest := attempts[mainUsed..];
    final, outcome, u2 := PickWinner(st, rest);
    used := mainUsed + u2;
    ValidKeysSplit(Loaded(log), attempts, mainUsed, u2, used);
    if |st.registrants| < MinUsers {
      PromptedShift(attempts, mainUsed, u2, used, final.deadline);
    }
  }

  /** Two spellings that differ only in letter case and in whitespace name
      the same person: once one is accepted the other is refused as a
      duplicate. */
  lemma CaseVariantRejected(registrants: set<string>, a: string, b: string)
    requires Decide(registrants, a).Accept?
    requires IsValidUsername(b) && FoldedWords(a) == FoldedWords(b)
    ensures Decide(registrants + {Decide(registrants, a).name}, b) == Reject(AlreadyRegistered)
  {
    DecideAccept(registrants, a);
    DecideDuplicate(registrants + {Key(a)}, b);
    SameKeyIffSameFoldedWords(a, b);
  }

  /** A canonical name survives an autosave and a reload. */
  lemma CanonicalNamePersistable(s: string)
    requires IsCanonicalName(s)
    ensures Persistable(s)
  {
    assert IsNameChar(s[|s| - 1]);
    StripOfStripped(s);
    if |WinnerTag| <= |s| {
      assert s[..|WinnerTag|][6] != WinnerTag[6] by {
        assert s[..|WinnerTag|][6] == s[6] && IsNameChar(s[6]);
      }
    }
  }

  /** Every key a window can add is persistable. */
  lemma ValidKeysPersistable(attempts: seq<Attempt>, k: string)
    requires k in ValidKeys(attempts)
    ensures Persistable(k)
    decreases |attempts|
  {
    var init, a := attempts[..|attempts| - 1], attempts[|attempts| - 1];
    if k in ValidKeys(init) {
      ValidKeysPersistable(init, k);
    } else {
      ValidKeyIsCanonical(a.entered);
      CanonicalNamePersistable(k);
    }
  }

  /** When the registrants were all persistable before a step that accepted
      a name (a canonical one, by `DecideAccept`) and autosaved, the
      rewritten log reloads to exactly the registrants after the step. */
  lemma AutosaveReloads(registrants: set<string>, name: string, lines: seq<string>)
    requires forall u :: u in registrants ==> Persistable(u)
    requires IsCanonicalName(name)
    requires IsListing(lines, registrants + {name})
    ensures Loaded(lines) == registrants + {name}
  {
    CanonicalNamePersistable(name);
    PersistableAdded(registrants, name);
    PersistableListingReloads(lines, registrants + {name});
  }

  lemma PersistableAdded(registrants: set<string>, name: string)
    requires forall u :: u in registrants ==> Persistable(u)
    requires Persistable(name)
    ensures forall u :: u in registrants + {name} ==> Persistable(u)
  {
  }

  /** The no-winner line is neither a valid entry nor a canonical key, so no
      registration can produce it; a reload nonetheless turns it into a
      registrant. */
  lemma SentinelIsNoName(registrants: set<string>, entered: string, log: seq<string>)
    ensures !IsValidUsername(Sentinel) && !IsCanonicalName(Sentinel)
    ensures Decide(registrants, entered).Accept? ==> Decide(registrants, entered).name != Sentinel
    ensures Sentinel in Loaded(log + [Sentinel])
  {
    var n := |Sentinel| - 1;
    assert Sentinel[n] == '.' && !IsNameChar(Sentinel[n]);
    assert Sentinel[0] == 'N';
    StripOfStripped(Sentinel);
    DecideAccept(registrants, entered);
    SentinelReloaded(log);
  }
}
