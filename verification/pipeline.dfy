/**
  One pass of the bot's update loop: count the update against its minute,
  drop what is not a chat message, build the prompt from the sender and the
  text, run the slash commands against the event file, throttle, trim the
  conversation memory, ask the backend and pick the reply. The chat service,
  the clock, the JSON encoder, lower-casing and the backend are parameters.
 */
module Pipeline {
  import opened Wrappers
  import opened Strs
  import Rate
  import Contexts
  import Sender
  import Events

  /** The parts of an incoming chat message the loop looks at. */
  datatype Message = Message(
    from: Option<Sender.User>,
    text: string,
    isCommand: bool,
    newChatMembers: bool,
    pinned: bool)

  /** The wall clock as the loop reads it: the "15:04" minute label and the second within it. */
  datatype Clock = Clock(minute: string, second: int)

  /** One update from the chat service: maybe a message, and the time it was taken off the queue. */
  datatype Input = Input(update: Option<Message>, clock: Clock)

  /** Settings: the per-minute cap, the configured bot name, the account's own user name, the system prompt. */
  datatype Config = Config(chatPerMinute: int, name: string, selfUserName: string, initialCond: string)

  /** What the backend gives back: a first choice, an error, or a response with no choices at all. */
  datatype Completion = Answered(content: string) | Failed | NoChoices

  /** The code the loop calls but that is not modelled: lower-casing, JSON encoding, the backend. */
  datatype Collaborators = Collaborators(
    toLower: string -> string,
    encodeJson: seq<string> -> string,
    ask: string -> Completion)

  /** Everything that survives from one update to the next: memory, minute counts, the event file. */
  datatype State = State(contexts: seq<string>, buckets: map<string, int>, store: string)

  /**
    What one update leads to. `SenderPanic` is the dereference of a missing
    sender; `ChoicesPanic` is reading the first choice of an empty backend
    response. Both end the loop. `Cleared` carries the reply sent after the
    memory is emptied.
   */
  datatype Action =
    | Ignored
    | DumpedPrompt(prompt: string)
    | Cleared(reply: string)
    | Replied(asked: string, reply: string)
    | SenderPanic
    | ChoicesPanic(asked: string)
  {
    predicate Panicked() { SenderPanic? || ChoicesPanic? }
  }

  /** The state after an update, the seconds the loop slept, and what it did. */
  datatype Outcome = Outcome(state: State, sleep: int, action: Action)

  /** The reply sent when the backend call fails. */
  const Fallback: string := "sabar, nanti tanya lagi"

  /** The reply sent after `/clear`. */
  const ClearedReply: string := "Memory cleared"

  /** The configured name, or the account's own user name when none is configured. */
  function BotName(cfg: Config): (r: string)
    ensures cfg.name != "" ==> r == cfg.name
    ensures cfg.name == "" ==> r == cfg.selfUserName
  {
    if cfg.name == "" then cfg.selfUserName else cfg.name
  }

  /** A text mentions the bot when it contains its name as configured or lower-cased. */
  predicate Mentioned(text: string, botName: string, env: Collaborators)
  {
    Contains(text, botName) || Contains(text, env.toLower(botName))
  }

  /** A text mentions the bot exactly when its name, as configured or lower-cased, occurs in it. */
  lemma MentionedByOccurrence(text: string, botName: string, env: Collaborators)
    ensures Mentioned(text, botName, env) <==>
      (exists j :: OccursAt(text, botName, j)) || (exists j :: OccursAt(text, env.toLower(botName), j))
  {
    ContainsOccurs(text, botName);
    ContainsOccurs(text, env.toLower(botName));
  }

  const GreetingHead: string := "Reply with new user guideline, username: "
  const MentionHead: string := "You are mentioned by: "

  /**
    The prompt for a "new members" service message: the sender's user name
    right after the fixed head and, with no separator before the `name:`
    label, the first name; then a newline.
   */
  function Greeting(u: Sender.User): (g: string)
    ensures |g| == |GreetingHead| + |u.userName| + |"name: "| + |u.firstName| + 1
    ensures GreetingHead <= g && g[|g| - 1] == '\n'
    ensures g[|GreetingHead|..|GreetingHead| + |u.userName|] == u.userName
    ensures g[|GreetingHead| + |u.userName|..] == "name: " + u.firstName + "\n"
  {
    GreetingHead + u.userName + "name: " + u.firstName + "\n"
  }

  /**
    The line added to the prompt when the bot is mentioned: the sender's user
    name after the fixed head, then the text the sender wrote, then a newline.
   */
  function MentionLine(u: Sender.User, text: string): (l: string)
    ensures |l| == |MentionHead| + |u.userName| + |" saying "| + |text| + 1
    ensures MentionHead <= l
    ensures l[|MentionHead|..|MentionHead| + |u.userName|] == u.userName
    ensures IsSuffix(" saying " + text + "\n", l)
  {
    MentionHead + u.userName + " saying " + text + "\n"
  }

  /**
    The prompt before commands: the greeting for new members, replaced by the
    (truncated) text when there is one, followed by the mention line.
   */
  function Prompt(m: Message, text: string, mentioned: bool): (p: string)
    requires m.newChatMembers || mentioned ==> m.from.Some?
    ensures text != "" && !mentioned ==> p == text
    ensures text != "" ==> text <= p
    ensures text == "" && m.newChatMembers ==> Greeting(m.from.value) <= p
    ensures text == "" && m.newChatMembers && !mentioned ==> p == Greeting(m.from.value)
    ensures text == "" && !m.newChatMembers && !mentioned ==> p == ""
    ensures mentioned ==> IsSuffix(MentionLine(m.from.value, text), p)
    ensures mentioned ==>
      var base := if text != "" then text else if m.newChatMembers then Greeting(m.from.value) else "";
      |p| == |base| + |MentionLine(m.from.value, text)| && base <= p
  {
    var greeting := if m.newChatMembers then Greeting(m.from.value) else "";
    var base := if text != "" then text else greeting;
    if mentioned then base + MentionLine(m.from.value, text) else base
  }

  const ContextHead: string := "context json don't use this unless asked: \""
  const PromptHead: string := "\"\\n Here is the prompt:"

  /**
    The text sent to the backend: the system prompt and a newline, then the
    memory as JSON in quotes, then the prompt at the very end. Each part sits
    at a fixed place and reads back from there.
   */
  function Request(initialCond: string, contextJson: string, prompt: string): (q: string)
    ensures |q| == |initialCond| + 1 + |ContextHead| + |contextJson| + |PromptHead| + |prompt|
    ensures initialCond + "\n" + ContextHead <= q
    ensures var at := |initialCond| + 1 + |ContextHead|;
      q[at..at + |contextJson|] == contextJson
    ensures IsSuffix(PromptHead + prompt, q)
  {
    initialCond + "\n" + ContextHead + contextJson + PromptHead + prompt
  }

  /**
    The long commands, chosen by the first space-separated word; any other
    command leaves the file and the prompt as they are.
   */
  function RunCommand(text: string, store: string, prompt: string): (r: Events.CommandResult)
    ensures var head := Events.Words(text)[0];
      && (head == "/catat" ==> r == Events.Catat(store, text))
      && (head == "/selesai" ==> r == Events.Selesai(store, text))
      && (head == "/events" ==> r == Events.ListEvents(store))
      && (head !in {"/catat", "/selesai", "/events"} ==> r == Events.CommandResult(store, prompt))
    ensures r.store != store ==> Events.Words(text)[0] in {"/catat", "/selesai"}
  {
    var head := Events.Words(text)[0];
    if head == "/catat" then Events.Catat(store, text)
    else if head == "/selesai" then Events.Selesai(store, text)
    else if head == "/events" then Events.ListEvents(store)
    else Events.CommandResult(store, prompt)
  }

  /**
    Whether the loop dereferences a missing sender for this message: for new
    members, and for a message that is not pinned when its text, cut to the
    prompt limit, is non-empty or mentions the bot.
   */
  predicate DerefsMissingSender(m: Message, botName: string, env: Collaborators)
  {
    var text := Sender.Truncate(m.text, Sender.PromptLimit);
    m.from.None? && (m.newChatMembers || (!m.pinned && (text != "" || Mentioned(text, botName, env))))
  }

  /**
    Cutting the text to the prompt limit does not change whether a message
    without a sender is dereferenced, so the condition reads the same on the
    text as received.
   */
  lemma DerefsMissingSenderUncut(m: Message, botName: string, env: Collaborators)
    ensures DerefsMissingSender(m, botName, env) <==>
      m.from.None? && (m.newChatMembers || (!m.pinned && (m.text != "" || Mentioned(m.text, botName, env))))
  {
    MentionOfTruncated(m.text, Sender.Truncate(m.text, Sender.PromptLimit), botName, env);
  }

  /** A command from a known sender, not pinned, whose text cut to the prompt limit is exactly `name`. */
  predicate KnownCommand(m: Message, name: string)
  {
    m.from.Some? && !m.pinned && m.isCommand && Sender.Truncate(m.text, Sender.PromptLimit) == name
  }

  /**
    The part of a pass that reaches the backend: run the command, apply the
    cap check, trim the memory and append the prompt, ask the backend and map
    its answer to the reply.
   */
  function Backend(st: State, m: Message, text: string, prompt: string, clock: Clock, cfg: Config, env: Collaborators): (o: Outcome)
    requires 0 <= clock.second < 60
    ensures o.action.Replied? || o.action.ChoicesPanic?
    ensures o.sleep == 0 ==> o.state.buckets == Rate.Tick(st.buckets, clock.minute)
    ensures o.sleep > 0 ==> o.state.buckets == map[] && o.sleep + clock.second == 60
    ensures o.sleep > 0 <==> Rate.Count(st.buckets, clock.minute) + 1 >= cfg.chatPerMinute
    ensures o.state.store != st.store ==> m.isCommand
    ensures var trimmed := Contexts.Trimmed(st.contexts, Contexts.LimitChar);
      && |o.state.contexts| > 0
      && var last := Last(o.state.contexts);
      && o.state.contexts == trimmed + [last]
      && o.action.asked == Sender.UserName(m.from) + ": " + Request(cfg.initialCond, env.encodeJson(trimmed), last)
    ensures var cmd := if m.isCommand then RunCommand(text, st.store, prompt) else Events.CommandResult(st.store, prompt);
      o.state.store == cmd.store && Last(o.state.contexts) == cmd.prompt
    ensures o.action.Replied? ==>
      && (env.ask(o.action.asked).Answered? ==> o.action.reply == env.ask(o.action.asked).content)
      && (env.ask(o.action.asked).Failed? ==> o.action.reply == Fallback)
      && !env.ask(o.action.asked).NoChoices?
    ensures o.action.ChoicesPanic? ==> env.ask(o.action.asked).NoChoices?
  {
    var cmd := if m.isCommand then RunCommand(text, st.store, prompt) else Events.CommandResult(st.store, prompt);
    var admission := Rate.Admit(Rate.Tick(st.buckets, clock.minute), clock.minute, clock.second, cfg.chatPerMinute);
    var trimmed := Contexts.Trimmed(st.contexts, Contexts.LimitChar);
    var asked := Sender.UserName(m.from) + ": " + Request(cfg.initialCond, env.encodeJson(trimmed), cmd.prompt);
    var next := State(trimmed + [cmd.prompt], admission.buckets, cmd.store);
    var action := match env.ask(asked)
      case Answered(content) => Replied(asked, content)
      case Failed => Replied(asked, Fallback)
      case NoChoices => ChoicesPanic(asked);
    Outcome(next, admission.sleep, action)
  }

  /** One pass of the update loop. */
  function Step(st: State, update: Option<Message>, clock: Clock, cfg: Config, env: Collaborators): (o: Outcome)
    requires 0 <= clock.second < 60
    ensures o.sleep == 0 ==> o.state.buckets == Rate.Tick(st.buckets, clock.minute)
    ensures o.sleep > 0 ==>
      && o.state.buckets == map[]
      && o.sleep + clock.second == 60
      && Rate.Count(st.buckets, clock.minute) + 1 >= cfg.chatPerMinute
    ensures o.action == Ignored <==> update.None? || (update.value.pinned && !DerefsMissingSender(update.value, BotName(cfg), env))
    ensures o.action == SenderPanic <==> update.Some? && DerefsMissingSender(update.value, BotName(cfg), env)
    ensures o.action.Ignored? || o.action.DumpedPrompt? || o.action.Cleared? || o.action.SenderPanic? ==>
      o.sleep == 0 && o.state.store == st.store
    ensures o.action.Ignored? || o.action.DumpedPrompt? || o.action.SenderPanic? ==> o.state.contexts == st.contexts
    ensures o.action.Cleared? ==> o.state.contexts == [] && o.action.reply == ClearedReply
    ensures o.state.store != st.store ==> update.Some? && update.value.isCommand
    ensures o.action.Replied? || o.action.ChoicesPanic? ==>
      var m := update.value;
      var text := Sender.Truncate(m.text, Sender.PromptLimit);
      o == Backend(st, m, text, Prompt(m, text, Mentioned(text, BotName(cfg), env)), clock, cfg, env)
  {
    var ticked := st.(buckets := Rate.Tick(st.buckets, clock.minute));
    if update.None? then Outcome(ticked, 0, Ignored)
    else
      var m := update.value;
      if m.newChatMembers && m.from.None? then Outcome(ticked, 0, SenderPanic)
      else if m.pinned then Outcome(ticked, 0, Ignored)
      else
        var text := Sender.Truncate(m.text, Sender.PromptLimit);
        var mentioned := Mentioned(text, BotName(cfg), env);
        if m.from.None? && (text != "" || mentioned) then Outcome(ticked, 0, SenderPanic)
        else
          var prompt := Prompt(m, text, mentioned);
          if m.isCommand && text == "/debug" then Outcome(ticked, 0, DumpedPrompt(prompt))
          else if m.isCommand && text == "/clear" then Outcome(ticked.(contexts := []), 0, Cleared(ClearedReply))
          else Backend(st, m, text, prompt, clock, cfg, env)
  }

  /**
    `/debug` and `/clear` are matched on the whole text, cut to the prompt
    limit, of a command from a known sender that is not pinned: `/debug`
    answers with the prompt built so far, `/clear` with the cleared reply.
   */
  lemma LocalCommands(st: State, update: Option<Message>, clock: Clock, cfg: Config, env: Collaborators)
    requires 0 <= clock.second < 60
    ensures var o := Step(st, update, clock, cfg, env);
      && (o.action.DumpedPrompt? <==> update.Some? && KnownCommand(update.value, "/debug"))
      && (o.action.Cleared? <==> update.Some? && KnownCommand(update.value, "/clear"))
      && (o.action.DumpedPrompt? ==>
        var m := update.value;
        var text := Sender.Truncate(m.text, Sender.PromptLimit);
        o.action.prompt == Prompt(m, text, Mentioned(text, BotName(cfg), env)))
  {
  }

  /**
    Whether a sender-less message is dereferenced does not depend on the
    truncation: an empty text stays empty, and a non-empty one crashes anyway.
   */
  lemma MentionOfTruncated(full: string, text: string, botName: string, env: Collaborators)
    requires text == "" <==> full == ""
    ensures (text != "" || Mentioned(text, botName, env)) <==> (full != "" || Mentioned(full, botName, env))
  {
    if full == "" {
      assert text == full;
    }
  }

  /** An ordinary message from a known sender that does not mention the bot is passed on as it is, cut to the prompt limit. */
  lemma PlainMessagePrompt(st: State, m: Message, clock: Clock, cfg: Config, env: Collaborators)
    requires 0 <= clock.second < 60
    requires m.from.Some? && !m.isCommand && !m.pinned && m.text != ""
    requires !Mentioned(Sender.Truncate(m.text, Sender.PromptLimit), BotName(cfg), env)
    ensures var o := Step(st, Some(m), clock, cfg, env);
      && !o.action.Ignored? && !o.action.SenderPanic?
      && Last(o.state.contexts) == Sender.Truncate(m.text, Sender.PromptLimit)
      && o.state.store == st.store
  {
  }

  /** `/clear` empties the memory, so the next request carries the encoding of no context at all. */
  lemma ClearForgets(st: State, clear: Message, next: Message, clock: Clock, cfg: Config, env: Collaborators)
    requires 0 <= clock.second < 60
    requires clear.from.Some? && clear.isCommand && clear.text == "/clear" && !clear.pinned
    ensures var o := Step(st, Some(clear), clock, cfg, env);
      && o.action == Cleared(ClearedReply) && o.state.contexts == []
      && var o2 := Step(o.state, Some(next), clock, cfg, env);
        (o2.action.Replied? ==>
          o2.action.asked == Sender.UserName(next.from) + ": " + Request(cfg.initialCond, env.encodeJson([]), Last(o2.state.contexts)))
  {
    ClearStep(st, clear, clock, cfg, env);
    var o := Step(st, Some(clear), clock, cfg, env);
    AskAfterClear(o.state, next, clock, cfg, env);
  }

  /** `/clear` from a known sender is answered with `Cleared` and an empty memory. */
  lemma ClearStep(st: State, clear: Message, clock: Clock, cfg: Config, env: Collaborators)
    requires 0 <= clock.second < 60
    requires clear.from.Some? && clear.isCommand && clear.text == "/clear" && !clear.pinned
    ensures var o := Step(st, Some(clear), clock, cfg, env);
      o.action == Cleared(ClearedReply) && o.state.contexts == []
  {
    assert Sender.Truncate(clear.text, Sender.PromptLimit) == clear.text;
    assert clear.text != "/debug" by {
      assert clear.text[1] != "/debug"[1];
    }
  }

  /** With an empty memory, a request that reaches the backend carries the encoding of no context. */
  lemma AskAfterClear(st: State, next: Message, clock: Clock, cfg: Config, env: Collaborators)
    requires 0 <= clock.second < 60 && st.contexts == []
    ensures var o := Step(st, Some(next), clock, cfg, env);
      o.action.Replied? ==>
        o.action.asked == Sender.UserName(next.from) + ": " + Request(cfg.initialCond, env.encodeJson([]), Last(o.state.contexts))
  {
    assert Contexts.Trimmed([], Contexts.LimitChar) == [];
  }

  /** `/catat` from a known sender rewrites the file as the event store says and tells the backend so. */
  lemma CatatStep(st: State, m: Message, clock: Clock, cfg: Config, env: Collaborators)
    requires 0 <= clock.second < 60
    requires m.from.Some? && m.isCommand && !m.pinned
    requires Events.Words(Sender.Truncate(m.text, Sender.PromptLimit))[0] == "/catat"
    ensures var o := Step(st, Some(m), clock, cfg, env);
      && (o.action.Replied? || o.action.ChoicesPanic?)
      && o.state.store == Events.Catat(st.store, Sender.Truncate(m.text, Sender.PromptLimit)).store
      && Last(o.state.contexts) == Events.SavedPrompt
  {
    var text := Sender.Truncate(m.text, Sender.PromptLimit);
    assert text != "/debug" && text != "/clear" by {
      if text == "/debug" || text == "/clear" {
        SplitFree(text, " ");
      }
    }
  }

  /** No update makes the event file split into more pieces than `/catat` allows, once it is within that bound. */
  lemma StepKeepsStoreBounded(st: State, update: Option<Message>, clock: Clock, cfg: Config, env: Collaborators)
    requires 0 <= clock.second < 60
    requires |Split(st.store, Events.Delim)| <= Events.MaxPieces
    ensures |Split(Step(st, update, clock, cfg, env).state.store, Events.Delim)| <= Events.MaxPieces
  {
    var o := Step(st, update, clock, cfg, env);
    if o.state.store != st.store {
      var text := Sender.Truncate(update.value.text, Sender.PromptLimit);
      var head := Events.Words(text)[0];
      if head == "/selesai" {
        Events.SelesaiNeverGrows(st.store, text);
      }
    }
  }

  /** Whether every input's clock reads a second within its minute. */
  predicate ValidClocks(inputs: seq<Input>)
  {
    forall i :: 0 <= i < |inputs| ==> 0 <= inputs[i].clock.second < 60
  }

  /**
    The loop over a queue of updates: the final state and the outcome of each
    update handled, up to the first panic.
   */
  function Run(st: State, inputs: seq<Input>, cfg: Config, env: Collaborators): (r: (State, seq<Outcome>))
    requires ValidClocks(inputs)
    ensures |r.1| <= |inputs|
    decreases |inputs|
  {
    if |inputs| == 0 then (st, [])
    else
      var o := Step(st, inputs[0].update, inputs[0].clock, cfg, env);
      if o.action.Panicked() then (o.state, [o])
      else
        var rest := Run(o.state, inputs[1..], cfg, env);
        (rest.0, [o] + rest.1)
  }

  /** Of the outcomes of `n` updates: a panic can only come last, and fewer outcomes than updates means one did. */
  predicate StopsOnPanic(outs: seq<Outcome>, n: int)
  {
    && (forall i :: 0 <= i < |outs| - 1 ==> !outs[i].action.Panicked())
    && (|outs| < n ==> |outs| > 0 && outs[|outs| - 1].action.Panicked())
  }

  /** A panic ends the loop: it can only be the last outcome, and the loop stops early only on one. */
  lemma {:induction false} RunStopsOnlyOnPanic(st: State, inputs: seq<Input>, cfg: Config, env: Collaborators)
    requires ValidClocks(inputs)
    ensures StopsOnPanic(Run(st, inputs, cfg, env).1, |inputs|)
    decreases |inputs|
  {
    if |inputs| > 0 {
      var o := Step(st, inputs[0].update, inputs[0].clock, cfg, env);
      if !o.action.Panicked() {
        RunCons(st, inputs, cfg, env);
        RunStopsOnlyOnPanic(o.state, inputs[1..], cfg, env);
        var rest := Run(o.state, inputs[1..], cfg, env).1;
        ConsStopsOnPanic(o, rest, |inputs| - 1);
      }
    }
  }

  /** An outcome that does not panic, in front of outcomes that stop only on a panic. */
  lemma ConsStopsOnPanic(o: Outcome, rest: seq<Outcome>, n: int)
    requires !o.action.Panicked() && StopsOnPanic(rest, n)
    ensures StopsOnPanic([o] + rest, n + 1)
  {
    var outs := [o] + rest;
    assert forall i :: 1 <= i < |outs| ==> outs[i] == rest[i - 1];
  }

  /** The event file stays within `MaxPieces` pieces over any run that starts within it. */
  lemma {:induction false} RunKeepsStoreBounded(st: State, inputs: seq<Input>, cfg: Config, env: Collaborators)
    requires ValidClocks(inputs)
    requires |Split(st.store, Events.Delim)| <= Events.MaxPieces
    ensures |Split(Run(st, inputs, cfg, env).0.store, Events.Delim)| <= Events.MaxPieces
    decreases |inputs|
  {
    if |inputs| > 0 {
      StepKeepsStoreBounded(st, inputs[0].update, inputs[0].clock, cfg, env);
      var o := Step(st, inputs[0].update, inputs[0].clock, cfg, env);
      if !o.action.Panicked() {
        RunKeepsStoreBounded(o.state, inputs[1..], cfg, env);
      }
    }
  }

  /** An ordinary chat message at a given time: a known sender, not pinned, not a command. */
  predicate Ordinary(input: Input, clock: Clock)
  {
    && input.clock == clock
    && input.update.Some?
    && input.update.value.from.Some?
    && !input.update.value.pinned
    && !input.update.value.isCommand
  }

  /** How many of the outcomes slept. */
  function Stalls(outs: seq<Outcome>): (n: nat)
    ensures n <= |outs|
  {
    if |outs| == 0 then 0 else (if outs[0].sleep > 0 then 1 else 0) + Stalls(outs[1..])
  }

  /** The loop goes on past an update that does not panic. */
  lemma RunCons(st: State, inputs: seq<Input>, cfg: Config, env: Collaborators)
    requires ValidClocks(inputs) && |inputs| > 0
    requires !Step(st, inputs[0].update, inputs[0].clock, cfg, env).action.Panicked()
    ensures var o := Step(st, inputs[0].update, inputs[0].clock, cfg, env);
      var rest := Run(o.state, inputs[1..], cfg, env);
      Run(st, inputs, cfg, env) == (rest.0, [o] + rest.1)
  {
  }

  /** An ordinary message is answered, and its admission is the one `Rate.Admit` makes after the tick. */
  lemma OrdinaryStep(st: State, input: Input, clock: Clock, cfg: Config, env: Collaborators)
    requires 0 <= clock.second < 60 && Ordinary(input, clock)
    requires forall q :: !env.ask(q).NoChoices?
    ensures var o := Step(st, input.update, clock, cfg, env);
      var a := Rate.Admit(Rate.Tick(st.buckets, clock.minute), clock.minute, clock.second, cfg.chatPerMinute);
      && o.action.Replied?
      && o.state.buckets == a.buckets && o.sleep == a.sleep
  {
  }

  lemma OrdinaryTail(inputs: seq<Input>, clock: Clock)
    requires |inputs| > 0 && 0 <= clock.second < 60
    requires forall i :: 0 <= i < |inputs| ==> Ordinary(inputs[i], clock)
    ensures ValidClocks(inputs[1..])
    ensures forall i :: 0 <= i < |inputs[1..]| ==> Ordinary(inputs[1..][i], clock)
  {
    forall i | 0 <= i < |inputs[1..]| ensures Ordinary(inputs[1..][i], clock) {
      assert inputs[1..][i] == inputs[i + 1];
    }
  }

  /**
    Ordinary messages within one minute, with a backend that always gives
    choices, are throttled exactly as `Rate.Burst` counts: the minute counts
    left and the number of stalls agree with it.
   */
  lemma {:induction false} RunThrottles(st: State, inputs: seq<Input>, clock: Clock, cfg: Config, env: Collaborators)
    requires 0 <= clock.second < 60 && ValidClocks(inputs)
    requires forall i :: 0 <= i < |inputs| ==> Ordinary(inputs[i], clock)
    requires forall q :: !env.ask(q).NoChoices?
    ensures |Run(st, inputs, cfg, env).1| == |inputs|
    ensures Run(st, inputs, cfg, env).0.buckets == Rate.Burst(st.buckets, clock.minute, clock.second, cfg.chatPerMinute, |inputs|).0
    ensures Stalls(Run(st, inputs, cfg, env).1) == Rate.Burst(st.buckets, clock.minute, clock.second, cfg.chatPerMinute, |inputs|).1
    decreases |inputs|
  {
    if |inputs| > 0 {
      var o := Step(st, inputs[0].update, clock, cfg, env);
      OrdinaryStep(st, inputs[0], clock, cfg, env);
      RunCons(st, inputs, cfg, env);
      var tail := inputs[1..];
      OrdinaryTail(inputs, clock);
      RunThrottles(o.state, tail, clock, cfg, env);
      ThrottleCons(st.buckets, o, Run(o.state, tail, cfg, env), clock, cfg.chatPerMinute, |tail|);
    }
  }

  /** The burst count of one admitted message followed by a run that agrees with `Rate.Burst`. */
  lemma ThrottleCons(buckets: map<string, int>, o: Outcome, rest: (State, seq<Outcome>), clock: Clock, cap: int, k: nat)
    requires 0 <= clock.second < 60
    requires var a := Rate.Admit(Rate.Tick(buckets, clock.minute), clock.minute, clock.second, cap);
      o.state.buckets == a.buckets && o.sleep == a.sleep
    requires var later := Rate.Burst(o.state.buckets, clock.minute, clock.second, cap, k);
      |rest.1| == k && rest.0.buckets == later.0 && Stalls(rest.1) == later.1
    ensures var whole := Rate.Burst(buckets, clock.minute, clock.second, cap, k + 1);
      && |[o] + rest.1| == k + 1
      && rest.0.buckets == whole.0
      && Stalls([o] + rest.1) == whole.1
  {
    var outs := [o] + rest.1;
    assert outs[1..] == rest.1;
    Rate.BurstFront(buckets, clock.minute, clock.second, cap, k);
  }

  /**
    From a fresh minute, `q * cap + r` ordinary messages (`r < cap`) stall the
    loop exactly `q` times: the `cap`-th message of each round sleeps, so at
    most `cap - 1` messages pass between stalls.
   */
  lemma RunStallsEveryCapth(st: State, inputs: seq<Input>, clock: Clock, cfg: Config, env: Collaborators, q: nat, r: nat)
    requires 0 <= clock.second < 60 && ValidClocks(inputs)
    requires forall i :: 0 <= i < |inputs| ==> Ordinary(inputs[i], clock)
    requires forall k :: !env.ask(k).NoChoices?
    requires st.buckets == map[] && 0 <= r < cfg.chatPerMinute && |inputs| == q * cfg.chatPerMinute + r
    ensures Stalls(Run(st, inputs, cfg, env).1) == q
    ensures Rate.Count(Run(st, inputs, cfg, env).0.buckets, clock.minute) == r
  {
    RunThrottles(st, inputs, clock, cfg, env);
    Rate.BurstStallsEveryCapth(clock.minute, clock.second, cfg.chatPerMinute, q, r);
  }
}
