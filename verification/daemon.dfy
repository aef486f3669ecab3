/**
 * The daemon's line protocol: each non-blank input line, stripped, is one
 * command for the table, and each command gets exactly one reply.
 *   `+address`  add an entry          `-address`  remove an entry
 *   `?`         list the entries      `.`         empty the table
 */
module Daemon {
  import opened Wrappers
  import opened Text
  import opened PfAddr
  import opened PfKernel
  import opened PfTables

  const OkReply: string := "OK\n"
  const MissingAddressReply: string := "ERROR: MISSING ADDRESS\n"
  const InvalidAddressReply: string := "ERROR: INVALID ADDRESS\n"
  const UnknownCommandReply: string := "ERROR: UNKNOWN COMMAND\n"

  /** What a command line asks for. */
  datatype Command =
    | AddAddress(address: string)
    | RemoveAddress(address: string)
    | MissingAddress
    | ListAll
    | ClearAll
    | Unknown

  /** The branch `process_command` takes on a non-empty command. */
  function ParseCommand(command: string): Command
    requires command != ""
  {
    if command[0] == '+' then (if |command| >= 2 then AddAddress(command[1..]) else MissingAddress)
    else if command[0] == '-' then (if |command| >= 2 then RemoveAddress(command[1..]) else MissingAddress)
    else if command == "?" then ListAll
    else if command == "." then ClearAll
    else Unknown
  }

  /** The canonical spelling of each command; a bare sign stands for a missing address. */
  function CommandText(cmd: Command): (t: string)
    ensures t != []
  {
    match cmd
    case AddAddress(a) => "+" + a
    case RemoveAddress(a) => "-" + a
    case MissingAddress => "+"
    case ListAll => "?"
    case ClearAll => "."
    case Unknown => "*"
  }

  /** Every command but an empty-address one is read back from its spelling. */
  lemma CommandRoundTrip(cmd: Command)
    requires cmd.AddAddress? || cmd.RemoveAddress? ==> cmd.address != ""
    ensures ParseCommand(CommandText(cmd)) == cmd
  {
    match cmd
    case AddAddress(a) => assert CommandText(cmd)[1..] == a;
    case RemoveAddress(a) => assert CommandText(cmd)[1..] == a;
    case _ =>
  }

  /** A command adds (removes) `a` exactly when it is `+` (`-`) followed by the non-empty `a`. */
  lemma AddRemoveSyntax(command: string, a: string)
    requires command != ""
    ensures ParseCommand(command) == AddAddress(a) <==> a != "" && command == "+" + a
    ensures ParseCommand(command) == RemoveAddress(a) <==> a != "" && command == "-" + a
  {
    if a != "" && (command == "+" + a || command == "-" + a) {
      assert command[1..] == a;
    }
    if ParseCommand(command) == AddAddress(a) || ParseCommand(command) == RemoveAddress(a) {
      assert command == [command[0]] + command[1..];
    }
  }

  /** Only the exact one-character commands list or clear; anything longer is unknown. */
  lemma ExactCommands(command: string)
    requires command != "" && command[0] != '+' && command[0] != '-'
    ensures ParseCommand(command) == ListAll <==> command == "?"
    ensures ParseCommand(command) == ClearAll <==> command == "."
    ensures |command| >= 2 ==> ParseCommand(command) == Unknown
  {
  }

  /** What a command does: change the set, show it, or refuse with an error reply. */
  datatype Action =
    | Insert(entry: TableAddr)
    | Delete(entry: TableAddr)
    | Flush
    | Show
    | Refuse(reply: string)

  /**
   * The meaning of a command: an add or a remove whose address parses names
   * that entry, one whose address does not is refused as invalid; a bare sign
   * is refused as missing its address and an unknown command as unknown.
   */
  function Meaning(cmd: Command): (act: Action)
  {
    match cmd
    case AddAddress(a) => if ParseText(a).Ok? then Insert(ParseText(a).value) else Refuse(InvalidAddressReply)
    case RemoveAddress(a) => if ParseText(a).Ok? then Delete(ParseText(a).value) else Refuse(InvalidAddressReply)
    case MissingAddress => Refuse(MissingAddressReply)
    case ListAll => Show
    case ClearAll => Flush
    case Unknown => Refuse(UnknownCommandReply)
  }

  /**
   * Whether carrying out `act` on the set `s` sends the set to the kernel:
   * an add of an absent entry, a remove of a present one and every clear
   * do; an add of a present entry, a remove of an absent one, a listing and
   * a refusal do not.
   */
  predicate Pushes(s: set<TableAddr>, act: Action)
  {
    match act
    case Insert(e) => e !in s
    case Delete(e) => e in s
    case Flush => true
    case _ => false
  }

  /** The set of entries after `act` has been carried out on `s`. */
  function Effect(s: set<TableAddr>, act: Action): set<TableAddr>
  {
    match act
    case Insert(e) => s + {e}
    case Delete(e) => s - {e}
    case Flush => {}
    case _ => s
  }

  /** An action that sends nothing leaves the set as it was; an add or a remove that sends the set has changed it. */
  lemma PushesChanges(s: set<TableAddr>, act: Action)
    ensures !Pushes(s, act) ==> Effect(s, act) == s
    ensures Pushes(s, act) && !act.Flush? ==> Effect(s, act) != s
  {
    if act.Insert? && !Pushes(s, act) {
      assert s + {act.entry} == s;
    }
  }

  /**
   * The kernel side of carrying out `act` on the set `s` while the kernel
   * held `before`, with `ok` telling whether the command was answered: an
   * action that sends nothing leaves every table as it was and is always
   * answered; one that sends the set is answered when the kernel took it,
   * and then the table `name` holds the new set and nothing else changed;
   * a command that is not answered changed no table.
   */
  ghost predicate KernelOutcome(before: map<string, seq<PfrAddr>>, after: map<string, seq<PfrAddr>>, name: string,
                                s: set<TableAddr>, act: Action, ok: bool)
  {
    && (!Pushes(s, act) ==> ok && after == before)
    && (Pushes(s, act) && ok ==> ReplacedBy(before, after, name, Effect(s, act)))
    && (!ok ==> after == before)
  }

  /** The reply to every action but `Show`. */
  function FixedReply(act: Action): string
    requires !act.Show?
  {
    if act.Refuse? then act.reply else OkReply
  }

  /** `?` lists the entries one per line, each line ended by a newline. */
  function ListReply(texts: seq<string>): string
  {
    Join(texts, "\n") + "\n"
  }

  /** `reply` is what the daemon answers to `act` when the table holds `s`. */
  ghost predicate IsReply(s: set<TableAddr>, act: Action, reply: string)
  {
    if act.Show? then exists texts :: IsListing(texts, s) && reply == ListReply(texts)
    else reply == FixedReply(act)
  }

  /** An entry's printed form, sent after `+` or `-`, adds or removes exactly that entry. */
  lemma PrintedEntryCommands(e: TableAddr)
    requires ValidAddr(e)
    ensures Meaning(ParseCommand("+" + ToText(e))) == Insert(e)
    ensures Meaning(ParseCommand("-" + ToText(e))) == Delete(e)
  {
    var t := ToText(e);
    TextRoundTrip(e);
    FormatNetworkChars(e.network);
    assert t != "";
    CommandRoundTrip(AddAddress(t));
    CommandRoundTrip(RemoveAddress(t));
    assert Meaning(AddAddress(t)) == Insert(e);
    assert Meaning(RemoveAddress(t)) == Delete(e);
  }

  /** A command whose address does not parse is refused as invalid and so changes nothing. */
  lemma InvalidAddressRefused(command: string)
    requires |command| >= 2 && (command[0] == '+' || command[0] == '-') && ParseText(command[1..]).Err?
    ensures Meaning(ParseCommand(command)) == Refuse(InvalidAddressReply)
    ensures forall s :: Effect(s, Meaning(ParseCommand(command))) == s
  {
    var cmd := ParseCommand(command);
    assert cmd == if command[0] == '+' then AddAddress(command[1..]) else RemoveAddress(command[1..]);
    assert Meaning(cmd) == Refuse(InvalidAddressReply);
  }

  /** Repeating an action changes nothing more: adds, removes and clears are idempotent. */
  lemma EffectIdempotent(s: set<TableAddr>, act: Action)
    ensures Effect(Effect(s, act), act) == Effect(s, act)
  {
  }

  /** An insert or a delete changes the membership of its own entry and of nothing else. */
  lemma EffectLocal(s: set<TableAddr>, act: Action, b: TableAddr)
    requires (act.Insert? || act.Delete?) && b != act.entry
    ensures b in Effect(s, act) <==> b in s
  {
  }

  /** Inserting an absent entry and then deleting it gives the set back. */
  lemma InsertThenDelete(s: set<TableAddr>, e: TableAddr)
    requires e !in s
    ensures Effect(Effect(s, Insert(e)), Delete(e)) == s
  {
    assert (s + {e}) - {e} == s;
  }

  /** The actions of commands keep the set made of well-formed entries. */
  lemma EffectValid(s: set<TableAddr>, cmd: Command)
    requires ValidSet(s)
    ensures ValidSet(Effect(s, Meaning(cmd)))
  {
    var act := Meaning(cmd);
    if act.Insert? {
      assert Effect(s, act) == s + {act.entry};
    }
  }

  /** The listing of an empty table is a lone newline. */
  lemma EmptyListReply(reply: string)
    requires IsReply({}, Show, reply)
    ensures reply == "\n"
  {
    var texts :| IsListing(texts, {}) && reply == ListReply(texts);
    EmptyListing(texts);
  }

  /** No printed entry holds a newline. */
  lemma TextHasNoNewline(a: TableAddr)
    requires ValidAddr(a)
    ensures '\n' !in ToText(a)
  {
    var f := FormatNetwork(a.network);
    FormatNetworkChars(a.network);
    if a.negate {
      assert ToText(a) == "! " + f;
    }
  }

  /**
   * A listing reply of a non-empty table ends with a newline, and its lines
   * before that are the table's members: as many lines as members, each line
   * parsing to a member, each member printed on some line.
   */
  lemma ListReplyLines(s: set<TableAddr>, reply: string)
    requires ValidSet(s) && s != {} && IsReply(s, Show, reply)
    ensures reply != [] && reply[|reply| - 1] == '\n'
    ensures var lines := Split(reply[..|reply| - 1], '\n');
      && |lines| == |s|
      && (forall i :: 0 <= i < |lines| ==> ParseText(lines[i]).Ok? && ParseText(lines[i]).value in s)
      && (forall a :: a in s ==> ToText(a) in lines)
  {
    var texts :| IsListing(texts, s) && reply == ListReply(texts);
    ListingHasNoNewline(texts, s);
    assert reply[..|reply| - 1] == Join(texts, "\n");
    SplitJoin(texts, '\n');
    ListingParses(texts, s);
  }

  /** No line of a listing holds a newline. */
  lemma ListingHasNoNewline(texts: seq<string>, s: set<TableAddr>)
    requires ValidSet(s) && IsListing(texts, s)
    ensures forall i :: 0 <= i < |texts| ==> '\n' !in texts[i]
  {
    forall i | 0 <= i < |texts| ensures '\n' !in texts[i] {
      assert texts[i] in TextSet(s);
      var a :| a in s && ValidAddr(a) && ToText(a) == texts[i];
      TextHasNoNewline(a);
    }
  }

  /**
   * `process_command(command, reply, table)` on a non-empty command: the
   * table is changed as the command's meaning says and the one reply is
   * returned. An invalid address is answered, not raised; a failing kernel
   * request is raised as an `OSError` and nothing is answered.
   */
  method ProcessCommand(table: PfTable, command: string) returns (r: Result<string, Error>)
    requires command != "" && table.Valid()
    modifies table, table.dev
    ensures table.Valid()
    ensures table.addresses == Effect(old(table.addresses), Meaning(ParseCommand(command)))
    ensures KernelOutcome(old(table.dev.tables), table.dev.tables, table.name, old(table.addresses), Meaning(ParseCommand(command)), r.Ok?)
    ensures r.Ok? ==> IsReply(old(table.addresses), Meaning(ParseCommand(command)), r.value)
    ensures r.Err? ==> r.error.IoctlFailed?
    ensures old(table.Synced()) && r.Ok? ==> table.Synced()
    ensures old(table.Synced()) && r.Err? && table.addresses != old(table.addresses) ==> !table.Synced()
  {
    var cmd := ParseCommand(command);
    r := Execute(table, cmd);
  }

  /** The branches of `process_command`, once the command has been classified. */
  method Execute(table: PfTable, cmd: Command) returns (r: Result<string, Error>)
    requires table.Valid()
    modifies table, table.dev
    ensures table.Valid()
    ensures table.addresses == Effect(old(table.addresses), Meaning(cmd))
    ensures KernelOutcome(old(table.dev.tables), table.dev.tables, table.name, old(table.addresses), Meaning(cmd), r.Ok?)
    ensures r.Ok? ==> IsReply(old(table.addresses), Meaning(cmd), r.value)
    ensures r.Err? ==> r.error.IoctlFailed?
    ensures old(table.Synced()) && r.Ok? ==> table.Synced()
    ensures old(table.Synced()) && r.Err? && table.addresses != old(table.addresses) ==> !table.Synced()
  {
    match cmd
    case AddAddress(address) =>
      r := AddCommand(table, address);
    case RemoveAddress(address) =>
      r := RemoveCommand(table, address);
    case MissingAddress =>
      r := Ok(MissingAddressReply);
    case ListAll =>
      var texts := table.List();
      r := Ok(ListReply(texts));
    case ClearAll =>
      var deleted := table.Clear();
      r := if deleted.Ok? then Ok(OkReply) else Err(deleted.error);
    case Unknown =>
      r := Ok(UnknownCommandReply);
  }

  /** The `+` branch: `table.add(command[1:])`, then answer. */
  method AddCommand(table: PfTable, address: string) returns (r: Result<string, Error>)
    requires table.Valid()
    modifies table, table.dev
    ensures table.Valid()
    ensures table.addresses == Effect(old(table.addresses), Meaning(AddAddress(address)))
    ensures KernelOutcome(old(table.dev.tables), table.dev.tables, table.name, old(table.addresses), Meaning(AddAddress(address)), r.Ok?)
    ensures r.Ok? ==> r.value == FixedReply(Meaning(AddAddress(address)))
    ensures r.Err? ==> r.error.IoctlFailed?
    ensures old(table.Synced()) && r.Ok? ==> table.Synced()
    ensures old(table.Synced()) && r.Err? ==> !table.Synced()
  {
    ghost var parsed := ParseText(address);
    ghost var act := Meaning(AddAddress(address));
    var outcome := table.Add(address);
    r := Answer(outcome);
    if parsed.Ok? {
      assert act == Insert(parsed.value);
      assert FixedReply(act) == OkReply;
    } else {
      assert act == Refuse(InvalidAddressReply);
      assert Effect(old(table.addresses), act) == table.addresses;
    }
  }

  /** The `-` branch: `table.remove(command[1:])`, then answer. */
  method RemoveCommand(table: PfTable, address: string) returns (r: Result<string, Error>)
    requires table.Valid()
    modifies table, table.dev
    ensures table.Valid()
    ensures table.addresses == Effect(old(table.addresses), Meaning(RemoveAddress(address)))
    ensures KernelOutcome(old(table.dev.tables), table.dev.tables, table.name, old(table.addresses), Meaning(RemoveAddress(address)), r.Ok?)
    ensures r.Ok? ==> r.value == FixedReply(Meaning(RemoveAddress(address)))
    ensures r.Err? ==> r.error.IoctlFailed?
    ensures old(table.Synced()) && r.Ok? ==> table.Synced()
    ensures old(table.Synced()) && r.Err? ==> !table.Synced()
  {
    ghost var parsed := ParseText(address);
    ghost var act := Meaning(RemoveAddress(address));
    var outcome := table.Remove(address);
    r := Answer(outcome);
    if parsed.Ok? {
      assert act == Delete(parsed.value);
      assert FixedReply(act) == OkReply;
    } else {
      assert act == Refuse(InvalidAddressReply);
      assert Effect(old(table.addresses), act) == table.addresses;
    }
  }

  /** `reply("OK\n")` after an add or remove, or the `ValueError` handler; other errors pass through. */
  method Answer(outcome: Result<nat, Error>) returns (r: Result<string, Error>)
    ensures outcome.Ok? ==> r == Ok(OkReply)
    ensures outcome.Err? && outcome.error == InvalidAddress ==> r == Ok(InvalidAddressReply)
    ensures outcome.Err? && outcome.error != InvalidAddress ==> r == Err(outcome.error)
  {
    if outcome.Ok? {
      r := Ok(OkReply);
    } else if outcome.error == InvalidAddress {
      r := Ok(InvalidAddressReply);
    } else {
      r := Err(outcome.error);
    }
  }

  /** The action a line carries, once stripped: none for a blank line. */
  function LineActions(line: string): (acts: seq<Action>)
    ensures |acts| <= 1
  {
    var c := Strip(line);
    if c == "" then [] else [Meaning(ParseCommand(c))]
  }

  /** The actions a stream of lines carries, in order. */
  function Actions(lines: seq<string>): (acts: seq<Action>)
    ensures |acts| <= |lines|
  {
    if lines == [] then []
    else Actions(lines[..|lines| - 1]) + LineActions(lines[|lines| - 1])
  }

  /** The set after carrying out `acts` one after another from `s`. */
  function Run(s: set<TableAddr>, acts: seq<Action>): set<TableAddr>
  {
    if acts == [] then s
    else Effect(Run(s, acts[..|acts| - 1]), acts[|acts| - 1])
  }

  /**
   * `replies` answer the first actions of `acts` in turn: the last reply
   * answers its action in the state all the earlier actions left.
   */
  ghost predicate Transcript(s: set<TableAddr>, acts: seq<Action>, replies: seq<string>)
    decreases |replies|
  {
    && |replies| <= |acts|
    && (replies != [] ==>
          var k := |replies| - 1;
          Transcript(s, acts, replies[..k]) && IsReply(Run(s, acts[..k]), acts[k], replies[k]))
  }

  /** Reply `i` of a transcript answers action `i` in the state the actions before it left. */
  lemma {:induction false} TranscriptAt(s: set<TableAddr>, acts: seq<Action>, replies: seq<string>, i: nat)
    requires Transcript(s, acts, replies) && i < |replies|
    ensures IsReply(Run(s, acts[..i]), acts[i], replies[i])
    decreases |replies|
  {
    var k := |replies| - 1;
    if i < k {
      TranscriptAt(s, acts, replies[..k], i);
    }
  }

  /** Carrying out one more action applies its effect to the run of the earlier ones. */
  lemma RunSnoc(s: set<TableAddr>, done: seq<Action>, act: Action)
    ensures Run(s, done + [act]) == Effect(Run(s, done), act)
  {
    assert (done + [act])[..|done|] == done;
  }

  /** Answering one more action extends the transcript. */
  lemma TranscriptStep(s: set<TableAddr>, done: seq<Action>, act: Action, replies: seq<string>, reply: string)
    requires |replies| == |done| && Transcript(s, done, replies)
    requires IsReply(Run(s, done), act, reply)
    ensures Transcript(s, done + [act], replies + [reply])
  {
    TranscriptExtend(s, done, [act], replies);
    assert (replies + [reply])[..|replies|] == replies;
    assert (done + [act])[..|done|] == done;
  }

  /** A transcript stays one when more actions follow. */
  lemma {:induction false} TranscriptExtend(s: set<TableAddr>, acts: seq<Action>, more: seq<Action>, replies: seq<string>)
    requires Transcript(s, acts, replies)
    ensures Transcript(s, acts + more, replies)
    decreases |replies|
  {
    if replies != [] {
      var k := |replies| - 1;
      TranscriptExtend(s, acts, more, replies[..k]);
      assert (acts + more)[..k] == acts[..k];
    }
  }

  /** A transcript of the first actions is a transcript of the whole stream. */
  lemma TranscriptPrefix(s: set<TableAddr>, acts: seq<Action>, k: nat, replies: seq<string>)
    requires k <= |acts| && Transcript(s, acts[..k], replies)
    ensures Transcript(s, acts, replies)
  {
    TranscriptExtend(s, acts[..k], acts[k..], replies);
    assert acts[..k] + acts[k..] == acts;
  }

  /** Blank lines carry no command. */
  lemma BlankLinesIgnored(lines: seq<string>, blank: string)
    requires forall i :: 0 <= i < |blank| ==> IsSpace(blank[i])
    ensures Actions(lines + [blank]) == Actions(lines)
  {
    assert (lines + [blank])[..|lines|] == lines;
    assert Strip(blank) == [];
    assert LineActions(blank) == [];
  }

  /**
   * Serving `lines` from the set `s` stopped at a command whose kernel
   * request failed: `replies` answer the commands before it, in a transcript
   * of the whole stream, and `now` already holds that command's effect.
   */
  ghost predicate Stopped(s: set<TableAddr>, lines: seq<string>, replies: seq<string>, now: set<TableAddr>)
  {
    && |replies| < |Actions(lines)|
    && Transcript(s, Actions(lines), replies)
    && now == Run(s, Actions(lines)[..|replies| + 1])
  }

  /**
   * One turn of the `handle` loop: the line is stripped and, unless it is
   * blank, processed as a command. A blank line changes nothing and gets no
   * reply; a command is carried out, then answered unless its kernel request
   * failed.
   */
  method ServeLine(table: PfTable, line: string) returns (reply: Option<string>, failure: Option<Error>)
    requires table.Valid()
    modifies table, table.dev
    ensures table.Valid()
    ensures LineActions(line) == [] <==> reply.None? && failure.None?
    ensures LineActions(line) == [] ==> table.addresses == old(table.addresses)
    ensures LineActions(line) != [] ==>
      && table.addresses == Effect(old(table.addresses), LineActions(line)[0])
      && reply.Some? != failure.Some?
      && (reply.Some? ==> IsReply(old(table.addresses), LineActions(line)[0], reply.value))
      && KernelOutcome(old(table.dev.tables), table.dev.tables, table.name, old(table.addresses), LineActions(line)[0], failure.None?)
    ensures LineActions(line) == [] ==> table.dev.tables == old(table.dev.tables)
    ensures old(table.Synced()) && failure.None? ==> table.Synced()
    ensures old(table.Synced()) && failure.Some? && table.addresses != old(table.addresses) ==> !table.Synced()
  {
    var command := Strip(line);
    if command == "" {
      return None, None;
    }
    assert LineActions(line) == [Meaning(ParseCommand(command))];
    var r := ProcessCommand(table, command);
    if r.Ok? {
      reply, failure := Some(r.value), None;
    } else {
      reply, failure := None, Some(r.error);
    }
  }

  /**
   * `CommandHandler.handle`: every line is stripped and every non-blank one
   * is processed in order, one reply each. A failing kernel request ends the
   * connection: the replies are those of the commands before it, and the set
   * reflects that command too, since the set is changed before the push.
   */
  method Handle(table: PfTable, lines: seq<string>) returns (replies: seq<string>, failure: Option<Error>)
    requires table.Valid()
    modifies table, table.dev
    ensures table.Valid()
    ensures failure.None? ==>
      && |replies| == |Actions(lines)|
      && Transcript(old(table.addresses), Actions(lines), replies)
      && table.addresses == Run(old(table.addresses), Actions(lines))
      && Mirrors(old(table.dev.tables), table.dev.tables, table.name, table.addresses)
    ensures failure.Some? ==>
      && Stopped(old(table.addresses), lines, replies, table.addresses)
      && Mirrors(old(table.dev.tables), table.dev.tables, table.name, Run(old(table.addresses), Actions(lines)[..|replies|]))
    ensures old(table.Synced()) && failure.None? ==> table.Synced()
  {
    replies := [];
    failure := None;
    for n := 0 to |lines|
      invariant table.Valid() && failure.None?
      invariant |replies| == |Actions(lines[..n])|
      invariant Transcript(old(table.addresses), Actions(lines[..n]), replies)
      invariant table.addresses == Run(old(table.addresses), Actions(lines[..n]))
      invariant Mirrors(old(table.dev.tables), table.dev.tables, table.name, table.addresses)
      invariant old(table.Synced()) ==> table.Synced()
    {
      replies, failure := HandleLine(table, lines, n, old(table.addresses), old(table.dev.tables), replies);
      if failure.Some? {
        return;
      }
    }
    assert lines[..|lines|] == lines;
  }

  /**
   * One pass of the `handle` loop over line `n`, after the lines before it
   * were answered with `done` from the set `s`: either the run and the
   * transcript now cover line `n` too, or its command failed in the kernel
   * and the connection ends with the transcript as it stands. Since the
   * kernel held `start`, the last push it took held the current set.
   */
  method HandleLine(table: PfTable, lines: seq<string>, n: nat, ghost s: set<TableAddr>,
                    ghost start: map<string, seq<PfrAddr>>, done: seq<string>)
    returns (replies: seq<string>, failure: Option<Error>)
    requires n < |lines| && table.Valid()
    requires |done| == |Actions(lines[..n])| && Transcript(s, Actions(lines[..n]), done)
    requires table.addresses == Run(s, Actions(lines[..n]))
    requires Mirrors(start, table.dev.tables, table.name, table.addresses)
    modifies table, table.dev
    ensures table.Valid()
    ensures failure.None? ==>
      && |replies| == |Actions(lines[..n + 1])|
      && Transcript(s, Actions(lines[..n + 1]), replies)
      && table.addresses == Run(s, Actions(lines[..n + 1]))
      && Mirrors(start, table.dev.tables, table.name, table.addresses)
    ensures failure.Some? ==>
      && replies == done && Stopped(s, lines, replies, table.addresses)
      && Mirrors(start, table.dev.tables, table.name, Run(s, Actions(lines)[..|replies|]))
    ensures old(table.Synced()) && failure.None? ==> table.Synced()
  {
    replies := done;
    ghost var before := table.addresses;
    ghost var tablesBefore := table.dev.tables;
    var reply, stop := ServeLine(table, lines[n]);
    failure := stop;
    if stop.Some? {
      StopAt(s, lines, n, LineActions(lines[n])[0], replies, table.addresses);
    } else if reply.Some? {
      var act := LineActions(lines[n])[0];
      PushesChanges(before, act);
      if Pushes(before, act) {
        MirrorsStep(start, tablesBefore, table.dev.tables, table.name, before, table.addresses);
      }
      Advance(s, lines, n, act, replies, reply.value, table.addresses);
      replies := replies + [reply.value];
    } else {
      SkipLine(lines, n);
    }
  }

  /** The actions of one more line are those of the line itself. */
  lemma NextLine(lines: seq<string>, n: nat)
    requires n < |lines|
    ensures Actions(lines[..n + 1]) == Actions(lines[..n]) + LineActions(lines[n])
  {
    assert lines[..n + 1][..n] == lines[..n];
  }

  /** A blank line adds no action. */
  lemma SkipLine(lines: seq<string>, n: nat)
    requires n < |lines| && LineActions(lines[n]) == []
    ensures Actions(lines[..n + 1]) == Actions(lines[..n])
  {
    NextLine(lines, n);
  }

  /** Answering the command of line `n` extends the transcript and the run by it. */
  lemma Advance(s: set<TableAddr>, lines: seq<string>, n: nat, act: Action, replies: seq<string>, reply: string, after: set<TableAddr>)
    requires n < |lines| && LineActions(lines[n]) == [act]
    requires |replies| == |Actions(lines[..n])| && Transcript(s, Actions(lines[..n]), replies)
    requires IsReply(Run(s, Actions(lines[..n])), act, reply)
    requires after == Effect(Run(s, Actions(lines[..n])), act)
    ensures |replies + [reply]| == |Actions(lines[..n + 1])|
    ensures Transcript(s, Actions(lines[..n + 1]), replies + [reply])
    ensures after == Run(s, Actions(lines[..n + 1]))
  {
    NextLine(lines, n);
    TranscriptStep(s, Actions(lines[..n]), act, replies, reply);
    RunSnoc(s, Actions(lines[..n]), act);
  }

  /**
   * Stopping at the command of line `n`, whose effect is in `after` but which
   * got no reply, leaves a transcript of the whole stream and the run up to
   * and including that command.
   */
  lemma StopAt(s: set<TableAddr>, lines: seq<string>, n: nat, act: Action, replies: seq<string>, after: set<TableAddr>)
    requires n < |lines| && LineActions(lines[n]) == [act]
    requires |replies| == |Actions(lines[..n])| && Transcript(s, Actions(lines[..n]), replies)
    requires after == Effect(Run(s, Actions(lines[..n])), act)
    ensures |replies| < |Actions(lines)|
    ensures Actions(lines)[..|replies|] == Actions(lines[..n])
    ensures after == Run(s, Actions(lines)[..|replies| + 1])
    ensures Transcript(s, Actions(lines), replies)
  {
    NextLine(lines, n);
    ActionsPrefix(lines, n + 1);
    StopAtSeq(s, Actions(lines), Actions(lines[..n]), act, replies, after);
  }

  lemma StopAtSeq(s: set<TableAddr>, all: seq<Action>, done: seq<Action>, act: Action, replies: seq<string>, after: set<TableAddr>)
    requires |done| < |all| && all[..|done| + 1] == done + [act]
    requires |replies| == |done| && Transcript(s, done, replies)
    requires after == Effect(Run(s, done), act)
    ensures all[..|replies|] == done
    ensures after == Run(s, all[..|replies| + 1])
    ensures Transcript(s, all, replies)
  {
    RunSnoc(s, done, act);
    assert all[..|done|] == all[..|done| + 1][..|done|] == done;
    TranscriptPrefix(s, all, |done|, replies);
  }

  /** The actions of the first lines are the first actions. */
  lemma {:induction false} ActionsPrefix(lines: seq<string>, k: nat)
    requires k <= |lines|
    ensures |Actions(lines[..k])| <= |Actions(lines)|
    ensures Actions(lines)[..|Actions(lines[..k])|] == Actions(lines[..k])
  {
    if k == |lines| {
      assert lines[..k] == lines;
    } else {
      var init := lines[..|lines| - 1];
      ActionsPrefix(init, k);
      assert init[..k] == lines[..k];
      PrefixOfConcat(Actions(init), LineActions(lines[|lines| - 1]), Actions(lines[..k]));
    }
  }

  lemma PrefixOfConcat(a: seq<Action>, b: seq<Action>, p: seq<Action>)
    requires |p| <= |a| && a[..|p|] == p
    ensures |p| <= |a + b| && (a + b)[..|p|] == p
  {
    assert (a + b)[..|p|] == a[..|p|];
  }
}
