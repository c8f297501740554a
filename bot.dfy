/** The Telegram command handler (internal/delivery/telegramHandler/handler.go):
    the dispatch of one update, the `/add title, deadline` command and the
    `/list` command. Replies are returned as the messages the bot is asked
    to send, in order. */
module Bot {
  import opened Wrappers
  import opened Text
  import opened Calendar
  import opened Deadlines
  import opened Tasks
  import opened Service

  const Greeting := "Привет! Присылайте задачу на контроль!\n Пример: /add Задача, 20.01.2026 15:00"
  const UnknownCommand := "Неизвестная команда"
  const AddUsage := "Пример: /add Задача, 20.01.2026 15:00"
  const AddMalformed := "Не корректно введены данные. Пример:\n/add Задача, 20.01.2026 15:00"
  const AddFailed := "Ошибка создания задачи."
  const AddDone := "Задача сохранена!"
  const ListFailed := "Ошибка сервера"
  const ListEmpty := "У вас нет активных задач🎉"
  const ListHeader := "📋 Ваши активные задачи:\n\n"

  /** A chat message: its chat, its sender, its text and, when its first
      entity is a bot command at the start of the text, that command's
      length. */
  datatype Message = Message(chatId: int, fromId: int, text: string, command: Option<nat>)

  /** A command entity covers the '/' and lies within the text. */
  predicate WellFormed(m: Message) {
    m.command.Some? ==> 1 <= m.command.value <= |m.text|
  }

  /** `Message.Command`: the command without its '/' and without an
      "@botname" suffix; empty for a message that is no command. */
  function Command(m: Message): (r: string)
    requires WellFormed(m)
    ensures '@' !in r
    ensures m.command.None? ==> r == ""
    ensures m.command.Some? ==> r <= m.text[1..m.command.value]
    ensures m.command.Some? && '@' !in m.text[1..m.command.value] ==> r == m.text[1..m.command.value]
    ensures m.command.Some? && '@' in m.text[1..m.command.value] ==>
              |r| < m.command.value - 1 && m.text[1..m.command.value][|r|] == '@'
  {
    if m.command.None? then ""
    else
      var withAt := m.text[1..m.command.value];
      match Cut(withAt, '@')
      case None => withAt
      case Some((name, _)) => name
  }

  /** `Message.CommandArguments`: the text after the command and the one
      character that follows it. */
  function CommandArguments(m: Message): (r: string)
    requires WellFormed(m)
    ensures m.command.None? || m.command.value == |m.text| ==> r == ""
    ensures m.command.Some? && m.command.value < |m.text| ==> m.text == m.text[..m.command.value + 1] + r
  {
    if m.command.None? || |m.text| == m.command.value then "" else m.text[m.command.value + 1..]
  }

  /** What an update leads to. */
  datatype Action = Ignore | Greet(to: int) | Add(message: Message) | List(message: Message) | Unknown(to: int)

  /** The dispatch of one update: no message or a message that is no command
      is ignored; `start`, `add` and `list` go to their handlers, the
      greeting to the sender, and any other command is answered in its
      chat. */
  function Dispatch(update: Option<Message>): (a: Action)
    requires update.Some? ==> WellFormed(update.value)
    ensures a.Ignore? <==> update.None? || update.value.command.None?
    ensures a.Greet? <==> !a.Ignore? && Command(update.value) == "start"
    ensures a.Add? <==> !a.Ignore? && Command(update.value) == "add"
    ensures a.List? <==> !a.Ignore? && Command(update.value) == "list"
    ensures a.Greet? ==> a.to == update.value.fromId
    ensures a.Unknown? ==> a.to == update.value.chatId
    ensures a.Add? || a.List? ==> a.message == update.value
  {
    match update
    case None => Ignore
    case Some(m) =>
      if m.command.None? then Ignore
      else
        var name := Command(m);
        if name == "start" then Greet(m.fromId)
        else if name == "add" then Add(m)
        else if name == "list" then List(m)
        else Unknown(m.chatId)
  }

  /** A command addressed to the bot by name ("/add@name") is the same
      command. */
  lemma CommandIgnoresBotName(m: Message, name: string, bot: string, rest: string)
    requires '@' !in name
    requires m.text == "/" + name + "@" + bot + rest && m.command == Some(2 + |name| + |bot|)
    ensures WellFormed(m) && Command(m) == name
  {
    var withAt := m.text[1..m.command.value];
    assert withAt == name + ['@'] + bot;
    CutAt(name, '@', bot);
  }

  /** A bare "/add" has no arguments, so it gets the usage reply. */
  lemma BareAddIsMissingArgs(m: Message)
    requires m.text == "/add" && m.command == Some(4)
    ensures WellFormed(m) && Dispatch(Some(m)).Add?
    ensures ParseAddArgs(CommandArguments(m)) == MissingArgs
  {
    assert m.text[1..4] == "add";
  }

  // ---------------------------------------------------------------------
  // /add
  // ---------------------------------------------------------------------

  /** How `/add` reads its arguments. */
  datatype AddRequest = MissingArgs | BadArgs | AddFields(title: string, deadline: string)

  /** The arguments split at every comma: anything but exactly two pieces is
      refused; the two pieces, trimmed of white space, are the title and
      the deadline. */
  function ParseAddArgs(args: string): (r: AddRequest)
    ensures r.MissingArgs? <==> args == ""
    ensures r.AddFields? <==> args != "" && multiset(args)[','] == 1
    ensures r.AddFields? ==> Trimmed(r.title) && Trimmed(r.deadline) && ',' !in r.title && ',' !in r.deadline
  {
    if args == "" then MissingArgs
    else
      var parts := Split(args, ',');
      if |parts| != 2 then BadArgs
      else
        assert parts[0] in parts && parts[1] in parts;
        AddFields(TrimSpace(parts[0]), TrimSpace(parts[1]))
  }

  /** A title and a deadline without commas, written with a comma between
      them and any white space around each, are read back exactly. */
  lemma {:induction false} AddArgsRoundTrip(title: string, deadline: string, p0: string, p1: string, p2: string, p3: string)
    requires Trimmed(title) && Trimmed(deadline) && ',' !in title && ',' !in deadline
    requires AllSpace(p0) && AllSpace(p1) && AllSpace(p2) && AllSpace(p3)
    ensures ParseAddArgs(p0 + title + p1 + "," + p2 + deadline + p3) == AddFields(title, deadline)
  {
    var a := p0 + title + p1;
    var b := p2 + deadline + p3;
    SpacesHoldNoComma(p0);
    SpacesHoldNoComma(p1);
    SpacesHoldNoComma(p2);
    SpacesHoldNoComma(p3);
    assert ',' !in a && ',' !in b;
    var args := p0 + title + p1 + "," + p2 + deadline + p3;
    assert args == Join([a, b], ',');
    SplitJoin([a, b], ',');
    TrimSpaceOf(p0, title, p1);
    TrimSpaceOf(p2, deadline, p3);
  }

  lemma SpacesHoldNoComma(s: string)
    requires AllSpace(s)
    ensures ',' !in s
  {
    forall k | 0 <= k < |s| ensures s[k] != ',' {
      assert IsSpace(s[k]);
    }
  }

  /** A title holding a comma is refused, whatever the deadline. */
  lemma TitleWithCommaRefused(title: string, deadline: string)
    requires ',' in title
    ensures ParseAddArgs(title + "," + deadline) == BadArgs
  {
    var args := title + "," + deadline;
    assert multiset(args) == multiset(title) + multiset(",") + multiset(deadline);
    assert multiset(title)[','] >= 1;
  }

  /** What `/add` in message `m` does to a table holding `before`, whose next
      id is `nextId`: the reply it sends and the rows it leaves. */
  predicate AddEffect(m: Message, now: Instant, fault: Fault, before: seq<Task>, nextId: int,
                      after: seq<Task>, reply: Outgoing)
    requires WellFormed(m)
  {
    var req := ParseAddArgs(CommandArguments(m));
    && (req.MissingArgs? ==> reply == Outgoing(m.chatId, AddUsage) && after == before)
    && (req.BadArgs? ==> reply == Outgoing(m.chatId, AddMalformed) && after == before)
    && (req.AddFields? ==>
          var v := Validate(m.chatId, req.title, req.deadline, now);
          && reply == Outgoing(m.chatId, if v.Success? && fault.None? then AddDone else AddFailed)
          && (v.Success? && fault.None? ==>
                after == before + [Task(nextId, m.chatId, req.title, v.value.deadline, false, now)])
          && (v.Failure? || fault.Some? ==> after == before))
  }

  /** `handleAddCommand`: exactly one reply, in the message's chat; the task
      is created, for the chat as its owner, only from well-formed
      arguments. */
  method HandleAdd(svc: TaskService, m: Message, now: Instant, fault: Fault) returns (reply: Outgoing)
    requires WellFormed(m) && svc.repo.Valid()
    modifies svc.repo
    ensures svc.repo.Valid()
    ensures AddEffect(m, now, fault, old(svc.repo.rows), old(svc.repo.nextId), svc.repo.rows, reply)
  {
    var args := CommandArguments(m);
    if args == "" {
      return Outgoing(m.chatId, AddUsage);
    }
    var parts := Split(args, ',');
    if |parts| != 2 {
      return Outgoing(m.chatId, AddMalformed);
    }
    var title := TrimSpace(parts[0]);
    var deadlineStr := TrimSpace(parts[1]);
    var err := svc.CreateTask(m.chatId, title, deadlineStr, now, fault);
    if err.Some? {
      return Outgoing(m.chatId, AddFailed);
    }
    reply := Outgoing(m.chatId, AddDone);
  }

  // ---------------------------------------------------------------------
  // /list
  // ---------------------------------------------------------------------

  /** One line group of the list: the number, the title, and the deadline in
      the zero-padded layout. */
  function Entry(n: int, t: Task): string {
    IntToDecimal(n) + ". " + t.title + "\n ⏰ " + Format(t.deadline) + "\n\n"
  }

  /** The entries of `tasks`, numbered from 1 in the order of the tasks. */
  function Entries(tasks: seq<Task>): seq<string> {
    seq(|tasks|, i requires 0 <= i < |tasks| => Entry(i + 1, tasks[i]))
  }

  /** An entry can be read back: `%d` reads its number from its start, and
      the sixteen characters before its closing blank line parse back to the
      task's deadline. */
  lemma EntryReadsBack(n: nat, t: Task)
    ensures ScanInt(Entry(n, t)) == n
    ensures t.deadline.year <= 9999 ==>
      var e := Entry(n, t); |e| >= 18 && ParseTime(e[|e| - 18..|e| - 2]) == (t.deadline, None)
  {
    var head := IntToDecimal(n);
    var x1 := head + ". ";
    var x2 := x1 + t.title;
    var x3 := x2 + "\n ⏰ ";
    var x4 := x3 + Format(t.deadline);
    var e := x4 + "\n\n";
    assert e == Entry(n, t);
    assert head <= x1 && x1 <= x2 && x2 <= x3 && x3 <= x4 && x4 <= e;
    assert x1 <= e;
    assert e == head + e[|head|..];
    assert e[|head|] == x1[|head|] == '.';
    ScanIntThen(n, e[|head|..]);
    if t.deadline.year <= 9999 {
      FormatLength(t.deadline);
      MiddleSlice(x3, Format(t.deadline), "\n\n");
      FormatRoundTrip(t.deadline);
    }
  }

  /** The text of the list for a user with tasks. */
  function ListText(tasks: seq<Task>): string {
    ListHeader + Concat(Entries(tasks))
  }

  /** The entry of the i-th task (counting from 0) carries the number i + 1
      and sits right after the entries of the tasks before it, below the
      header: the list is numbered 1..n in the order the repository
      returned. */
  lemma EntryAt(tasks: seq<Task>, i: int)
    requires 0 <= i < |tasks|
    ensures Concat(Entries(tasks)) == Concat(Entries(tasks)[..i]) + Entry(i + 1, tasks[i]) + Concat(Entries(tasks)[i + 1..])
  {
    ConcatAt(Entries(tasks), i);
  }

  /** `handleListCommand` given what the repository returned for the chat:
      an error reply, the empty-list reply, or the header followed by one
      entry per task, built up task by task. */
  method HandleList(chatId: int, tasks: Result<seq<Task>, string>) returns (reply: Outgoing)
    ensures tasks.Failure? ==> reply == Outgoing(chatId, ListFailed)
    ensures tasks.Success? && tasks.value == [] ==> reply == Outgoing(chatId, ListEmpty)
    ensures tasks.Success? && tasks.value != [] ==> reply == Outgoing(chatId, ListText(tasks.value))
  {
    if tasks.Failure? {
      return Outgoing(chatId, ListFailed);
    }
    var ts := tasks.value;
    if |ts| == 0 {
      return Outgoing(chatId, ListEmpty);
    }
    var msg := ListHeader;
    var i := 0;
    while i < |ts|
      invariant 0 <= i <= |ts|
      invariant msg == ListHeader + Concat(Entries(ts)[..i])
    {
      var entry := Entry(i + 1, ts[i]);
      ConcatSnoc(Entries(ts), i);
      AppendAssoc(ListHeader, Concat(Entries(ts)[..i]), entry);
      msg := msg + entry;
      i := i + 1;
    }
    assert Entries(ts)[..i] == Entries(ts);
    reply := Outgoing(chatId, msg);
  }

  // ---------------------------------------------------------------------
  // One update
  // ---------------------------------------------------------------------

  /** The handling of one update: at most one reply, as dispatch decides.
      `createFault` is the outcome of the insert an `/add` may make, and
      `listed` what the repository returns for the chat's tasks. */
  method HandleUpdate(svc: TaskService, update: Option<Message>, now: Instant, createFault: Fault,
                      listed: Result<seq<Task>, string>) returns (replies: seq<Outgoing>)
    requires update.Some? ==> WellFormed(update.value)
    requires svc.repo.Valid()
    modifies svc.repo
    ensures svc.repo.Valid()
    ensures var a := Dispatch(update);
      && (a.Ignore? ==> replies == [])
      && (a.Greet? ==> replies == [Outgoing(a.to, Greeting)])
      && (a.Unknown? ==> replies == [Outgoing(a.to, UnknownCommand)])
      && (a.Add? ==>
            && |replies| == 1
            && AddEffect(a.message, now, createFault, old(svc.repo.rows), old(svc.repo.nextId), svc.repo.rows, replies[0]))
      && (a.List? && listed.Failure? ==> replies == [Outgoing(a.message.chatId, ListFailed)])
      && (a.List? && listed.Success? && listed.value == [] ==> replies == [Outgoing(a.message.chatId, ListEmpty)])
      && (a.List? && listed.Success? && listed.value != [] ==> replies == [Outgoing(a.message.chatId, ListText(listed.value))])
      && (!a.Add? ==> svc.repo.rows == old(svc.repo.rows))
  {
    match Dispatch(update)
    case Ignore =>
      replies := [];
    case Greet(to) =>
      replies := [Outgoing(to, Greeting)];
    case Add(m) =>
      var reply := HandleAdd(svc, m, now, createFault);
      replies := [reply];
    case List(m) =>
      var reply := HandleList(m.chatId, listed);
      replies := [reply];
    case Unknown(to) =>
      replies := [Outgoing(to, UnknownCommand)];
  }
}
