/** The log file `lottery_log.txt` as a sequence of lines (without their
    line terminators): how `autosave_users` writes the registrant set, how
    the start-up loop reads it back, and the two kinds of line that
    `pick_winner` appends. */
module Log {
  import opened Text

  /** Lines starting with this tag are skipped when the log is reloaded. */
  const WinnerTag: string := "Winner:"

  /** The line appended when registration ends without enough participants.
      It is written in two pieces because the verifier resolves only the
      last characters of a long literal, and the proofs about this line need
      its first character. */
  const Sentinel: string := "N" + "o winner selected due to insufficient participants."

  /** The line recording the drawn winner. */
  function WinnerLine(w: string): (l: string)
    ensures |l| == |WinnerTag| + 1 + |w|
    ensures StartsWith(l, WinnerTag)
    ensures l[|WinnerTag| + 1..] == w
  {
    WinnerTag + " " + w
  }

  /** The reload loop keeps a line when it is not blank and does not begin
      with the winner tag; the tag is tested on the line as read, before
      stripping. */
  predicate Kept(line: string) {
    Strip(line) != [] && !StartsWith(line, WinnerTag)
  }

  /** The registrants a log yields on reload: the stripped form of every
      kept line. */
  function Loaded(log: seq<string>): set<string> {
    if log == [] then {}
    else
      var init, line := log[..|log| - 1], log[|log| - 1];
      Loaded(init) + (if Kept(line) then {Strip(line)} else {})
  }

  lemma LoadedAppend(log: seq<string>, line: string)
    ensures Loaded(log + [line]) == Loaded(log) + (if Kept(line) then {Strip(line)} else {})
  {
    assert (log + [line])[..|log|] == log;
  }

  /** A reloaded name comes from some kept line. */
  lemma {:induction false} LoadedWitness(log: seq<string>, x: string) returns (i: nat)
    requires x in Loaded(log)
    ensures i < |log| && Kept(log[i]) && Strip(log[i]) == x
    decreases |log|
  {
    var init := log[..|log| - 1];
    if x in Loaded(init) {
      i := LoadedWitness(init, x);
      assert log[i] == init[i];
    } else {
      i := |log| - 1;
    }
  }

  /** Every kept line is reloaded. */
  lemma {:induction false} KeptLoaded(log: seq<string>, i: nat)
    requires i < |log| && Kept(log[i])
    ensures Strip(log[i]) in Loaded(log)
    decreases |log|
  {
    if i < |log| - 1 {
      var init := log[..|log| - 1];
      assert init[i] == log[i];
      KeptLoaded(init, i);
    }
  }

  /** A name is reloaded exactly when some kept line strips to it. */
  lemma LoadedMembers(log: seq<string>, x: string)
    ensures x in Loaded(log) <==> exists i :: 0 <= i < |log| && Kept(log[i]) && Strip(log[i]) == x
  {
    if x in Loaded(log) {
      var i := LoadedWitness(log, x);
    }
    if exists i :: 0 <= i < |log| && Kept(log[i]) && Strip(log[i]) == x {
      var i :| 0 <= i < |log| && Kept(log[i]) && Strip(log[i]) == x;
      KeptLoaded(log, i);
    }
  }

  /** The start-up loop over the lines of the log: blank lines and winner
      records are skipped, every other line is added stripped. */
  method Reload(log: seq<string>) returns (users: set<string>)
    ensures users == Loaded(log)
  {
    users := {};
    var i := 0;
    while i < |log|
      invariant 0 <= i <= |log|
      invariant users == Loaded(log[..i])
    {
      var line := log[i];
      assert log[..i + 1] == log[..i] + [line];
      LoadedAppend(log[..i], line);
      if Strip(line) != [] && !StartsWith(line, WinnerTag) {
        users := users + {Strip(line)};
      }
      i := i + 1;
    }
    assert log[..i] == log;
  }

  /** `lines` names every user and nothing else, and is no longer than the
      set, so it names each user once (see `ListingIsDistinct`). */
  ghost predicate IsListing(lines: seq<string>, users: set<string>) {
    && |lines| == |users|
    && (forall u :: u in lines <==> u in users)
  }

  predicate Distinct(lines: seq<string>) {
    forall i, j :: 0 <= i < j < |lines| ==> lines[i] != lines[j]
  }

  /** The set of lines appearing in `lines`. */
  function Elements(lines: seq<string>): (e: set<string>)
    ensures forall u :: u in e <==> u in lines
  {
    if lines == [] then {}
    else Elements(lines[..|lines| - 1]) + {lines[|lines| - 1]}
  }

  /** A sequence has at most as many different elements as it is long, and
      strictly fewer when some element is repeated. */
  lemma {:induction false} ElementsBound(lines: seq<string>)
    ensures |Elements(lines)| <= |lines|
    ensures !Distinct(lines) ==> |Elements(lines)| < |lines|
  {
    if lines != [] {
      var n := |lines| - 1;
      var init := lines[..n];
      ElementsBound(init);
      if !Distinct(lines) {
        var i, j :| 0 <= i < j < |lines| && lines[i] == lines[j];
        if j == n {
          assert init[i] == lines[n];
          assert Elements(lines) == Elements(init);
        } else {
          assert init[i] == init[j];
        }
      }
    }
  }

  /** A listing names each user exactly once. */
  lemma ListingIsDistinct(lines: seq<string>, users: set<string>)
    requires IsListing(lines, users)
    ensures Distinct(lines)
  {
    assert Elements(lines) == users;
    ElementsBound(lines);
  }

  /** `lines` is what an autosave writes for some registrant set that lies
      between `lo` and `hi`: each line once, every name of `lo`, and nothing
      outside `hi`. */
  ghost predicate ListsBetween(lines: seq<string>, lo: set<string>, hi: set<string>) {
    && Distinct(lines)
    && lo <= Elements(lines)
    && Elements(lines) <= hi
  }

  lemma ListingListsBetween(lines: seq<string>, users: set<string>, lo: set<string>, hi: set<string>)
    requires IsListing(lines, users) && lo <= users && users <= hi
    ensures ListsBetween(lines, lo, hi)
  {
    ListingIsDistinct(lines, users);
    assert Elements(lines) == users;
  }

  /** `autosave_users`: the log is overwritten with one line per registrant,
      in the set's iteration order, which the model leaves open. */
  method Autosave(users: set<string>) returns (lines: seq<string>)
    ensures IsListing(lines, users)
    ensures Distinct(lines)
  {
    lines := [];
    var rest := users;
    while rest != {}
      invariant rest <= users
      invariant |lines| + |rest| == |users|
      invariant forall i, j :: 0 <= i < j < |lines| ==> lines[i] != lines[j]
      invariant forall u :: u in lines <==> u in users && u !in rest
      decreases |rest|
    {
      var u :| u in rest;
      lines := lines + [u];
      rest := rest - {u};
    }
  }

  /** `u` holds no line break. Reading the log in text mode ends a line at
      `\n` and at `\r`, so a name that holds one is written as one line but
      read back as several. */
  predicate OneLine(u: string) {
    forall i :: 0 <= i < |u| ==> u[i] != '\n' && u[i] != '\r'
  }

  /** A registrant that survives a save and reload unchanged: one line,
      non-blank, already stripped, and not mistaken for a winner record. */
  predicate Persistable(u: string) {
    u != [] && OneLine(u) && Strip(u) == u && !StartsWith(u, WinnerTag)
  }

  lemma LoadedIsStripped(log: seq<string>, x: string)
    requires x in Loaded(log)
    ensures x != [] && Strip(x) == x
  {
    var i := LoadedWitness(log, x);
    StripIdempotent(log[i]);
  }

  /** The lines of a text file hold no line break, and neither does any
      name reloaded from them. */
  lemma LoadedIsOneLine(log: seq<string>, x: string)
    requires forall i :: 0 <= i < |log| ==> OneLine(log[i])
    requires x in Loaded(log)
    ensures OneLine(x)
  {
    var i := LoadedWitness(log, x);
    var line := log[i];
    assert OneLine(line);
    forall k | 0 <= k < |x| ensures x[k] != '\n' && x[k] != '\r' {
      assert x[k] == line[Lead(line) + k];
    }
  }

  lemma ReloadedFromListing(lines: seq<string>, users: set<string>, x: string)
    requires IsListing(lines, users)
    requires forall u :: u in users ==> Persistable(u)
    requires x in Loaded(lines)
    ensures x in users
  {
    var i := LoadedWitness(lines, x);
    var u := lines[i];
    assert u in users;
    assert Persistable(u);
  }

  lemma ListedIsReloaded(lines: seq<string>, users: set<string>, u: string)
    requires IsListing(lines, users)
    requires Persistable(u) && u in users
    ensures u in Loaded(lines)
  {
    assert u in lines;
    var i :| 0 <= i < |lines| && lines[i] == u;
    KeptLoaded(lines, i);
  }

  lemma PersistableListingReloads(lines: seq<string>, users: set<string>)
    requires IsListing(lines, users)
    requires forall u :: u in users ==> Persistable(u)
    ensures Loaded(lines) == users
  {
    forall x | x in Loaded(lines) ensures x in users {
      ReloadedFromListing(lines, users, x);
    }
    forall u | u in users ensures u in Loaded(lines) {
      ListedIsReloaded(lines, users, u);
    }
  }

  lemma ReloadedListingIsPersistable(lines: seq<string>, users: set<string>, u: string)
    requires IsListing(lines, users) && Loaded(lines) == users && u in users && OneLine(u)
    ensures Persistable(u)
  {
    var i := LoadedWitness(lines, u);
    var m := lines[i];
    assert m in users;
    LoadedIsStripped(lines, m);
    assert u == m;
  }

  /** Reloading an autosaved listing gives back exactly the saved set when
      every name in it is persistable; for names of one line each, only
      then. */
  lemma ListingReloads(lines: seq<string>, users: set<string>)
    requires IsListing(lines, users)
    ensures (forall u :: u in users ==> Persistable(u)) ==> Loaded(lines) == users
    ensures (forall u :: u in users ==> OneLine(u)) ==>
              (Loaded(lines) == users <==> forall u :: u in users ==> Persistable(u))
  {
    if forall u :: u in users ==> Persistable(u) {
      PersistableListingReloads(lines, users);
    }
    if Loaded(lines) == users && forall u :: u in users ==> OneLine(u) {
      forall u | u in users ensures Persistable(u) {
        ReloadedListingIsPersistable(lines, users, u);
      }
    }
  }

  /** A winner record is never read back as a registrant. */
  lemma WinnerLineNotReloaded(log: seq<string>, w: string)
    ensures Loaded(log + [WinnerLine(w)]) == Loaded(log)
  {
    LoadedAppend(log, WinnerLine(w));
  }

  /** The no-winner line, by contrast, is read back as a registrant. */
  lemma SentinelReloaded(log: seq<string>)
    ensures Sentinel in Loaded(log + [Sentinel])
    ensures Loaded(log + [Sentinel]) == Loaded(log) + {Sentinel}
  {
    assert Sentinel[0] == 'N' && Sentinel[|Sentinel| - 1] == '.';
    StripOfStripped(Sentinel);
    assert Sentinel[..|WinnerTag|] != WinnerTag by {
      assert Sentinel[..|WinnerTag|][0] != WinnerTag[0];
    }
    LoadedAppend(log, Sentinel);
  }
}
