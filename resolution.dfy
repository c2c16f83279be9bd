/** The two LLM tasks with their template × retry loops (main.py:266-422), the
    fallbacks that turn their results into a filename and a category
    (main.py:425-447), and the per-document pipeline after OCR
    (main.py:540-562). The language model is an oracle: a function from the
    prompt and the call's index to a reply. */
module Resolution {
  import opened StringOps
  import opened Extract
  import opened Normalize
  import opened Matching
  import opened Voting

  const RETRIES: nat := 3
  const TEMPLATES: nat := 3
  /** Attempts per task: every template, `RETRIES` times each. */
  const ATTEMPTS: nat := 9
  /** The OCR text is cut to this many characters. */
  const TEXT_LIMIT: nat := 2000
  const UNSURE: string := "Unsicher"
  const RANDOM_MAX: nat := 10000000

  datatype Task = Naming | Categorizing

  /** What the service is asked: the task and template, the document text, the
      extra context (empty when there is none) and the labels the category
      prompts list. How a template renders these is not modelled. */
  datatype Prompt = Prompt(task: Task, template: nat, content: string, context: string, labels: seq<string>)

  /** An answer, or the exception `ask_infomaniak_ai` raises. */
  datatype Reply = Answer(text: string) | Failure

  /** How a task ends: with a value at some attempt, after all attempts
      without one, or by an exception at some attempt. */
  datatype Outcome = Resolved(value: string, attempt: nat) | Exhausted | Raised(attempt: nat)

  /** What the task's function returns when it does not raise. */
  function ValueOf(o: Outcome): (r: Option<string>)
    ensures r.Some? <==> o.Resolved?
  {
    if o.Resolved? then Some(o.value) else None
  }

  /** The number of calls made to the service. */
  function CallsOf(o: Outcome): nat {
    match o
    case Resolved(_, k) => k + 1
    case Exhausted => ATTEMPTS
    case Raised(k) => k + 1
  }

  /** The template an attempt uses: each template is tried `RETRIES` times, so
      attempt `k` falls in the block of template `t`. */
  function TemplateOf(k: nat): (t: nat)
    ensures RETRIES * t <= k < RETRIES * t + RETRIES
    ensures k < ATTEMPTS ==> t < TEMPLATES
    decreases k
  {
    if k < RETRIES then 0 else TemplateOf(k - RETRIES) + 1
  }

  /** Retry `j` of template `idx` is attempt `RETRIES * idx + j`. */
  lemma TemplateOfAttempt(idx: nat, j: nat)
    requires j < RETRIES
    ensures TemplateOf(RETRIES * idx + j) == idx
  {
  }

  /** The service, as an oracle, and the number of calls made to it. */
  class Llm {
    const respond: (Prompt, nat) -> Reply
    var calls: nat

    constructor(respond: (Prompt, nat) -> Reply)
      ensures this.respond == respond && calls == 0
    {
      this.respond := respond;
      calls := 0;
    }

    /** `ask_infomaniak_ai` */
    method Ask(p: Prompt) returns (reply: Reply)
      modifies this
      ensures reply == respond(p, old(calls)) && calls == old(calls) + 1
    {
      reply := respond(p, calls);
      calls := calls + 1;
    }
  }

  /** `prompt_stats`: one success counter per template and task. */
  class PromptStats {
    var name: seq<nat>
    var category: seq<nat>

    predicate Valid()
      reads this
    {
      |name| == TEMPLATES && |category| == TEMPLATES
    }

    constructor()
      ensures Valid() && name == [0, 0, 0] && category == [0, 0, 0]
    {
      name := [0, 0, 0];
      category := [0, 0, 0];
    }

    method RecordName(idx: nat)
      requires Valid() && idx < TEMPLATES
      modifies this
      ensures Valid() && name == old(name)[idx := old(name)[idx] + 1] && category == old(category)
    {
      name := name[idx := name[idx] + 1];
    }

    method RecordCategory(idx: nat)
      requires Valid() && idx < TEMPLATES
      modifies this
      ensures Valid() && category == old(category)[idx := old(category)[idx] + 1] && name == old(name)
    {
      category := category[idx := category[idx] + 1];
    }
  }

  /** The counters after a task: the template that resolved it gains one. */
  function Recorded(counts: seq<nat>, o: Outcome): (r: seq<nat>)
    ensures |r| == |counts|
    ensures !o.Resolved? ==> r == counts
  {
    if o.Resolved? && TemplateOf(o.attempt) < |counts| then
      counts[TemplateOf(o.attempt) := counts[TemplateOf(o.attempt)] + 1]
    else counts
  }

  // One attempt and a run of attempts, shared by both tasks.

  /** What one attempt comes to: a value that ends the loop, nothing that
      does, or an exception. */
  datatype Step = Hit(value: string) | Miss | Fail

  /** The attempts of a task whose calls are numbered from `base`, from call
      `call` on: the attempt at call `c` sends the prompt of template
      `TemplateOf(c - base)` and reads the reply. */
  function AttemptsFrom(respond: (Prompt, nat) -> Reply, base: nat, prompt: nat -> Prompt, read: Reply --> Step, call: nat): (s: seq<Step>)
    requires forall r :: read.requires(r)
    requires base <= call <= base + ATTEMPTS
    ensures |s| == base + ATTEMPTS - call
    decreases base + ATTEMPTS - call
  {
    if call == base + ATTEMPTS then []
    else [read(respond(prompt(TemplateOf(call - base)), call))] + AttemptsFrom(respond, base, prompt, read, call + 1)
  }

  /** The nine attempts of a task. */
  function Attempts(respond: (Prompt, nat) -> Reply, base: nat, prompt: nat -> Prompt, read: Reply --> Step): (s: seq<Step>)
    requires forall r :: read.requires(r)
    ensures |s| == ATTEMPTS
  {
    AttemptsFrom(respond, base, prompt, read, base)
  }

  lemma {:induction false} AttemptsFromAt(respond: (Prompt, nat) -> Reply, base: nat, prompt: nat -> Prompt, read: Reply --> Step,
                                          call: nat, i: nat)
    requires forall r :: read.requires(r)
    requires base <= call <= base + i < base + ATTEMPTS
    ensures AttemptsFrom(respond, base, prompt, read, call)[base + i - call] == read(respond(prompt(TemplateOf(i)), base + i))
    decreases base + i - call
  {
    if call < base + i {
      AttemptsFromAt(respond, base, prompt, read, call + 1, i);
    }
  }

  /** Attempt `i` reads the reply to call `base + i`, which was sent the
      prompt of template `TemplateOf(i)`. */
  lemma AttemptAt(respond: (Prompt, nat) -> Reply, base: nat, prompt: nat -> Prompt, read: Reply --> Step, i: nat)
    requires forall r :: read.requires(r)
    requires i < ATTEMPTS
    ensures Attempts(respond, base, prompt, read)[i] == read(respond(prompt(TemplateOf(i)), base + i))
  {
    AttemptsFromAt(respond, base, prompt, read, base, i);
  }

  /** Retry `j` of template `idx` is attempt `k`, which reads the reply to
      call `base + k`. */
  lemma AttemptsAt(respond: (Prompt, nat) -> Reply, base: nat, prompt: nat -> Prompt, read: Reply --> Step,
                   idx: nat, j: nat, k: nat, reply: Reply)
    requires forall r :: read.requires(r)
    requires idx < TEMPLATES && j < RETRIES && k == RETRIES * idx + j
    requires reply == respond(prompt(idx), base + k)
    ensures TemplateOf(k) == idx
    ensures Attempts(respond, base, prompt, read)[k] == read(reply)
  {
    TemplateOfAttempt(idx, j);
    AttemptAt(respond, base, prompt, read, k);
  }

  /** The loop from attempt `k` on: it ends at the first attempt that is not a
      miss. */
  function Run(steps: seq<Step>, k: nat): (o: Outcome)
    requires k <= |steps|
    ensures o.Resolved? || o.Raised? ==> k <= o.attempt < |steps|
    decreases |steps| - k
  {
    if k == |steps| then Exhausted
    else
      match steps[k]
      case Hit(v) => Resolved(v, k)
      case Fail => Raised(k)
      case Miss => Run(steps, k + 1)
  }

  /** The loop resolves with the first hit and raises at the first failure,
      after nothing but misses, and runs out exactly when every attempt
      misses. */
  lemma {:induction false} RunSpec(steps: seq<Step>, k: nat)
    requires k <= |steps|
    ensures var o := Run(steps, k);
      && (o.Resolved? ==> steps[o.attempt] == Hit(o.value))
      && (o.Raised? ==> steps[o.attempt] == Fail)
      && (o.Resolved? || o.Raised? ==> forall j :: k <= j < o.attempt ==> steps[j] == Miss)
      && (o.Exhausted? <==> forall j :: k <= j < |steps| ==> steps[j] == Miss)
    decreases |steps| - k
  {
    if k < |steps| && steps[k].Miss? {
      RunSpec(steps, k + 1);
    }
  }

  /** At most nine calls, one per attempt up to the one that ends the loop. */
  lemma RunCalls(steps: seq<Step>)
    requires |steps| == ATTEMPTS
    ensures 1 <= CallsOf(Run(steps, 0)) <= ATTEMPTS
  {
  }

  /** The loop of `get_document_name`: every template `RETRIES` times, until
      a reply reads as a value (which counts for its template) or the service
      raises. */
  method RetryLoop(llm: Llm, prompt: nat -> Prompt, read: Reply --> Step)
    returns (result: Option<string>, raised: bool, template: nat)
    requires forall r :: read.requires(r)
    modifies llm
    ensures var o := Run(Attempts(llm.respond, old(llm.calls), prompt, read), 0);
      && result == ValueOf(o) && raised == o.Raised?
      && llm.calls == old(llm.calls) + CallsOf(o)
      && (o.Resolved? ==> template == TemplateOf(o.attempt))
  {
    ghost var steps := Attempts(llm.respond, llm.calls, prompt, read);
    ghost var base := llm.calls;
    ghost var k := 0;
    ghost var o := Run(steps, 0);
    for idx := 0 to TEMPLATES
      invariant k == RETRIES * idx && llm.calls == base + k
      invariant Run(steps, k) == o
    {
      for j := 0 to RETRIES
        invariant k == RETRIES * idx + j && llm.calls == base + k
        invariant Run(steps, k) == o
      {
        var reply := llm.Ask(prompt(idx));
        var step := read(reply);
        AttemptsAt(llm.respond, base, prompt, read, idx, j, k, reply);
        if step.Fail? {
          return None, true, idx;
        }
        if step.Hit? {
          return Some(step.value), false, idx;
        }
        k := k + 1;
      }
    }
    return None, false, 0;
  }

  /** The name loop, then the count for the template that found the name. */
  method RecordedRetry(llm: Llm, stats: PromptStats, prompt: nat -> Prompt, read: Reply --> Step)
    returns (result: Option<string>, raised: bool)
    requires stats.Valid() && forall r :: read.requires(r)
    modifies llm, stats
    ensures var o := Run(Attempts(llm.respond, old(llm.calls), prompt, read), 0);
      && result == ValueOf(o) && raised == o.Raised?
      && llm.calls == old(llm.calls) + CallsOf(o)
      && stats.Valid() && stats.name == Recorded(old(stats.name), o) && stats.category == old(stats.category)
  {
    var template;
    result, raised, template := RetryLoop(llm, prompt, read);
    if result.Some? {
      stats.RecordName(template);
    }
  }

  /** The loop of `get_document_category` from attempt `k` on, with the tally so
      far: each hit is counted and the margin voter asked at once. */
  function TallyRun(steps: seq<Step>, k: nat, tally: Tally): (o: Outcome)
    requires k <= |steps|
    ensures o.Resolved? ==> o.value != ""
    ensures o.Resolved? || o.Raised? ==> k <= o.attempt < |steps|
    decreases |steps| - k
  {
    if k == |steps| then Exhausted
    else
      match steps[k]
      case Fail => Raised(k)
      case Miss => TallyRun(steps, k + 1, tally)
      case Hit(cat) =>
        var counted := Bump(tally, cat);
        var highest := HighestCountByTwo(counted);
        if highest.Some? && highest.value != "" then Resolved(highest.value, k)
        else TallyRun(steps, k + 1, counted)
  }

  /** One attempt of the category loop: a failure raises, a miss moves on, a
      hit is counted and the voter asked. */
  lemma TallyRunStep(steps: seq<Step>, k: nat, tally: Tally)
    requires k < |steps|
    ensures steps[k].Fail? ==> TallyRun(steps, k, tally) == Raised(k)
    ensures steps[k].Miss? ==> TallyRun(steps, k, tally) == TallyRun(steps, k + 1, tally)
    ensures steps[k].Hit? ==>
      var counted := Bump(tally, steps[k].value);
      var highest := HighestCountByTwo(counted);
      TallyRun(steps, k, tally)
        == (if highest.Some? && highest.value != "" then Resolved(highest.value, k) else TallyRun(steps, k + 1, counted))
  {
  }

  /** The margin never decides: the tally is empty until the first hit, which
      leaves it with one key, and the voter returns a single key at once. So
      the task ends with its first hit, as the plain loop does. */
  lemma {:induction false} VoteRunIsFirstHit(steps: seq<Step>, k: nat)
    requires k <= |steps|
    requires forall j :: k <= j < |steps| && steps[j].Hit? ==> steps[j].value != ""
    ensures TallyRun(steps, k, []) == Run(steps, k)
    decreases |steps| - k
  {
    if k < |steps| {
      match steps[k]
      case Fail =>
      case Hit(cat) =>
        assert Bump([], cat) == [(cat, 1)];
        assert SortDesc([(cat, 1)]) == [(cat, 1)];
      case Miss =>
        VoteRunIsFirstHit(steps, k + 1);
    }
  }

  /** The loop of `get_document_category`, with its tally updated in place: a
      hit is counted, and the voter's winner, if any, ends the loop and counts
      for its template. */
  method VoteLoop(llm: Llm, prompt: nat -> Prompt, read: Reply --> Step)
    returns (result: Option<string>, raised: bool, template: nat)
    requires forall r :: read.requires(r)
    modifies llm
    ensures var o := TallyRun(Attempts(llm.respond, old(llm.calls), prompt, read), 0, []);
      && result == ValueOf(o) && raised == o.Raised?
      && llm.calls == old(llm.calls) + CallsOf(o)
      && (o.Resolved? ==> template == TemplateOf(o.attempt))
  {
    ghost var steps := Attempts(llm.respond, llm.calls, prompt, read);
    ghost var base := llm.calls;
    ghost var k := 0;
    ghost var o := TallyRun(steps, 0, []);
    var counts: Tally := [];
    for idx := 0 to TEMPLATES
      invariant k == RETRIES * idx && llm.calls == base + k
      invariant TallyRun(steps, k, counts) == o
    {
      for j := 0 to RETRIES
        invariant k == RETRIES * idx + j && llm.calls == base + k
        invariant TallyRun(steps, k, counts) == o
      {
        var reply := llm.Ask(prompt(idx));
        var step := read(reply);
        AttemptsAt(llm.respond, base, prompt, read, idx, j, k, reply);
        TallyRunStep(steps, k, counts);
        if step.Fail? {
          return None, true, idx;
        }
        if step.Hit? {
          counts := Bump(counts, step.value);
          var highest := HighestCountByTwo(counts);
          if highest.Some? && highest.value != "" {
            return highest, false, idx;
          }
        }
        k := k + 1;
      }
    }
    return None, false, 0;
  }

  /** The category loop, then the count for the template whose answer won. */
  method RecordedVote(llm: Llm, stats: PromptStats, prompt: nat -> Prompt, read: Reply --> Step)
    returns (result: Option<string>, raised: bool)
    requires stats.Valid() && forall r :: read.requires(r)
    modifies llm, stats
    ensures var o := TallyRun(Attempts(llm.respond, old(llm.calls), prompt, read), 0, []);
      && result == ValueOf(o) && raised == o.Raised?
      && llm.calls == old(llm.calls) + CallsOf(o)
      && stats.Valid() && stats.category == Recorded(old(stats.category), o) && stats.name == old(stats.name)
  {
    var template;
    result, raised, template := VoteLoop(llm, prompt, read);
    if result.Some? {
      stats.RecordCategory(template);
    }
  }

  // The name task (`get_document_name`).

  datatype NameJob = NameJob(content: string, context: string, names: Names, date: string)

  /** The name prompt of each template. */
  function NamePrompts(job: NameJob): nat -> Prompt {
    (t: nat) => Prompt(Naming, t, job.content, job.context, [])
  }

  /** A valid candidate, normalised and dated; it keeps its single dot. */
  function DatedName(m: string, names: Names, date: string): (r: string)
    requires LiteralNames(names) && IsValid(Some(m))
    ensures r != ""
    ensures Count(Tidied(m, names), '.') == 1
    ensures '.' !in date ==> Count(r, '.') == 1
  {
    IsValidSpec(Some(m));
    var tidied := Tidied(m, names);
    TidiedKeepsDots(m, names);
    assert '.' in tidied;
    var r := AppendDate(tidied, date);
    assert '.' !in date ==> Count(r, '.') == 1 by {
      if '.' !in date { AppendDateKeepsDots(tidied, date); }
    }
    r
  }

  /** One attempt of the name task: the candidate found in the cleaned answer,
      if valid, normalised and dated. */
  function NameStep(reply: Reply, names: Names, date: string): (s: Step)
    requires LiteralNames(names)
    ensures s.Fail? <==> reply.Failure?
    ensures s.Hit? <==> reply.Answer? && IsValid(FindMatch(CleanLlmOutput(reply.text)))
    ensures s.Hit? ==> s.value != ""
    ensures s.Hit? && '.' !in date ==> Count(s.value, '.') == 1
    ensures s.Hit? ==> var m := FindMatch(CleanLlmOutput(reply.text)).value;
      '.' in Tidied(m, names) && s.value == AppendDate(Tidied(m, names), date)
  {
    match reply
    case Failure => Fail
    case Answer(text) =>
      var m := FindMatch(CleanLlmOutput(text));
      if IsValid(m) then Hit(DatedName(m.value, names, date)) else Miss
  }

  function NameReader(names: Names, date: string): Reply --> Step {
    reply requires LiteralNames(names) => NameStep(reply, names, date)
  }

  /** The nine attempts of the name task, for calls numbered from `base`. */
  function NameSteps(respond: (Prompt, nat) -> Reply, base: nat, job: NameJob): (s: seq<Step>)
    requires LiteralNames(job.names)
    ensures |s| == ATTEMPTS
  {
    Attempts(respond, base, NamePrompts(job), NameReader(job.names, job.date))
  }

  /** Attempt `k` of the name task reads the reply to call `base + k`, which
      was sent the name prompt of template `TemplateOf(k)`. */
  lemma NameStepsAt(respond: (Prompt, nat) -> Reply, base: nat, job: NameJob, k: nat)
    requires LiteralNames(job.names) && k < ATTEMPTS
    ensures NameSteps(respond, base, job)[k]
      == NameStep(respond(Prompt(Naming, TemplateOf(k), job.content, job.context, []), base + k), job.names, job.date)
  {
    AttemptAt(respond, base, NamePrompts(job), NameReader(job.names, job.date), k);
  }

  /** The reply to attempt `k` of the name task: call `base + k`, sent the
      name prompt of template `TemplateOf(k)`. */
  function NameReply(respond: (Prompt, nat) -> Reply, base: nat, job: NameJob, k: nat): Reply {
    respond(Prompt(Naming, TemplateOf(k), job.content, job.context, []), base + k)
  }

  /** The candidate `find_match` takes from a reply text. */
  function Candidate(text: string): Option<string> {
    FindMatch(CleanLlmOutput(text))
  }

  /** The name task settles on the first reply holding a valid candidate, and
      its value is that candidate tidied and dated: never empty, and with a
      single dot (its extension) when the date has none. Every reply before
      the one it stops at was an answer without a valid candidate; it raises
      at the first failure of the service. */
  lemma NameIsFirstValid(respond: (Prompt, nat) -> Reply, base: nat, job: NameJob)
    requires LiteralNames(job.names)
    ensures var o := Run(NameSteps(respond, base, job), 0);
      && (o.Resolved? ==> (o.attempt < ATTEMPTS
            && var reply := NameReply(respond, base, job, o.attempt);
            && reply.Answer? && IsValid(Candidate(reply.text))
            && var m := Candidate(reply.text).value;
            && '.' in Tidied(m, job.names) && o.value == AppendDate(Tidied(m, job.names), job.date)))
      && (o.Resolved? ==> o.value != "" && ('.' !in job.date ==> Count(o.value, '.') == 1))
      && (o.Raised? ==> o.attempt < ATTEMPTS && NameReply(respond, base, job, o.attempt).Failure?)
      && (o.Resolved? || o.Raised? ==> forall k :: 0 <= k < o.attempt ==>
            NameReply(respond, base, job, k).Answer? && !IsValid(Candidate(NameReply(respond, base, job, k).text)))
      && (o.Exhausted? ==> forall k :: 0 <= k < ATTEMPTS ==>
            NameReply(respond, base, job, k).Answer? && !IsValid(Candidate(NameReply(respond, base, job, k).text)))
  {
    var steps := NameSteps(respond, base, job);
    RunSpec(steps, 0);
    var o := Run(steps, 0);
    forall k | 0 <= k < ATTEMPTS
      ensures steps[k] == NameStep(NameReply(respond, base, job, k), job.names, job.date)
    {
      NameStepsAt(respond, base, job, k);
    }
  }

  /** `get_document_name`: the first valid candidate, normalised and dated, or
      nothing after nine attempts; an exception from the service ends it. */
  method GetDocumentName(llm: Llm, stats: PromptStats, job: NameJob) returns (result: Option<string>, raised: bool)
    requires LiteralNames(job.names) && stats.Valid()
    modifies llm, stats
    ensures var o := Run(NameSteps(llm.respond, old(llm.calls), job), 0);
      && result == ValueOf(o) && raised == o.Raised?
      && llm.calls == old(llm.calls) + CallsOf(o)
      && stats.Valid() && stats.name == Recorded(old(stats.name), o) && stats.category == old(stats.category)
  {
    result, raised := RecordedRetry(llm, stats, NamePrompts(job), NameReader(job.names, job.date));
  }

  // The category task (`get_document_category`).

  datatype CategoryJob = CategoryJob(content: string, context: string, labels: seq<string>)

  /** The category prompt of each template, listing the labels. */
  function CategoryPrompts(job: CategoryJob): nat -> Prompt {
    (t: nat) => Prompt(Categorizing, t, job.content, job.context, job.labels)
  }

  /** One attempt of the category task: a non-empty category found in the
      cleaned answer (`if cat:`). */
  function CategoryStep(reply: Reply, labels: seq<string>): (s: Step)
    requires Literals(labels)
    ensures s.Fail? <==> reply.Failure?
    ensures s.Hit? ==> s.value != "" && IsLabel(s.value, labels)
    ensures s.Hit? <==> reply.Answer? && Truthy(FindCategory(CleanLlmOutput(reply.text), labels))
    ensures s.Hit? ==> s.value == FindCategory(CleanLlmOutput(reply.text), labels).value
  {
    match reply
    case Failure => Fail
    case Answer(text) =>
      var cat := FindCategory(CleanLlmOutput(text), labels);
      if cat.Some? && cat.value != "" then Hit(cat.value) else Miss
  }

  function CategoryReader(labels: seq<string>): Reply --> Step {
    reply requires Literals(labels) => CategoryStep(reply, labels)
  }

  /** The nine attempts of the category task, for calls numbered from `base`. */
  function CategorySteps(respond: (Prompt, nat) -> Reply, base: nat, job: CategoryJob): (s: seq<Step>)
    requires Literals(job.labels)
    ensures |s| == ATTEMPTS
  {
    Attempts(respond, base, CategoryPrompts(job), CategoryReader(job.labels))
  }

  /** Attempt `k` of the category task reads the reply to call `base + k`,
      which was sent the category prompt of template `TemplateOf(k)`. */
  lemma CategoryStepsAt(respond: (Prompt, nat) -> Reply, base: nat, job: CategoryJob, k: nat)
    requires Literals(job.labels) && k < ATTEMPTS
    ensures CategorySteps(respond, base, job)[k]
      == CategoryStep(respond(Prompt(Categorizing, TemplateOf(k), job.content, job.context, job.labels), base + k), job.labels)
  {
    AttemptAt(respond, base, CategoryPrompts(job), CategoryReader(job.labels), k);
  }

  /** The category task settles on its first non-empty category, which is one
      of the labels, ignoring case, spelled as in the answer that produced
      it. */
  lemma CategoryIsFirstLabel(respond: (Prompt, nat) -> Reply, base: nat, job: CategoryJob)
    requires Literals(job.labels)
    ensures var steps := CategorySteps(respond, base, job);
      var o := TallyRun(steps, 0, []);
      && o == Run(steps, 0)
      && (o.Resolved? ==> o.value != "" && IsLabel(o.value, job.labels))
  {
    var steps := CategorySteps(respond, base, job);
    forall j | 0 <= j < |steps| && steps[j].Hit?
      ensures steps[j].value != "" && IsLabel(steps[j].value, job.labels)
    {
      CategoryStepsAt(respond, base, job, j);
    }
    VoteRunIsFirstHit(steps, 0);
    RunSpec(steps, 0);
  }

  /** `get_document_category` */
  method GetDocumentCategory(llm: Llm, stats: PromptStats, job: CategoryJob) returns (result: Option<string>, raised: bool)
    requires Literals(job.labels) && stats.Valid()
    modifies llm, stats
    ensures var o := TallyRun(CategorySteps(llm.respond, old(llm.calls), job), 0, []);
      && result == ValueOf(o) && raised == o.Raised?
      && llm.calls == old(llm.calls) + CallsOf(o)
      && stats.Valid() && stats.category == Recorded(old(stats.category), o) && stats.name == old(stats.name)
  {
    result, raised := RecordedVote(llm, stats, CategoryPrompts(job), CategoryReader(job.labels));
  }

  // The fallbacks (`get_filename_and_category`).

  /** A present, non-empty string (Python truthiness of `Optional[str]`). */
  predicate Truthy(s: Option<string>) {
    s.Some? && s.value != ""
  }

  /** The name used when no filename was generated. */
  function FallbackName(rand: nat): (r: string)
    ensures |r| > |UNSURE| + 1 + |PDF|
  {
    UNSURE + "_" + DecimalString(rand) + PDF
  }

  /** `get_filename_and_category`; `rand` is the value `random.randint(1,
      10000000)` drew. */
  function FilenameAndCategory(newFilename: Option<string>, category: Option<string>, name: string, rand: nat): (r: (string, string))
    requires 1 <= rand <= RANDOM_MAX
    ensures r.0 != ""
  {
    var finalCategory := if Truthy(category) then category.value else UNSURE;
    var filename := if Truthy(newFilename) then newFilename.value else FallbackName(rand);
    var finalCategory' := if Truthy(newFilename) then finalCategory else UNSURE;
    var filename' := if |name| > 0 then name + "_" + filename else filename;
    (filename', finalCategory')
  }

  /** The four fallback rules, each as stated. */
  lemma FilenameAndCategoryCases(newFilename: Option<string>, category: Option<string>, name: string, rand: nat)
    requires 1 <= rand <= RANDOM_MAX
    ensures var r := FilenameAndCategory(newFilename, category, name, rand);
      var base := if Truthy(newFilename) then newFilename.value else FallbackName(rand);
      && (!Truthy(newFilename) ==> r.1 == UNSURE)
      && (Truthy(newFilename) && !Truthy(category) ==> r.1 == UNSURE)
      && (Truthy(newFilename) && Truthy(category) ==> r.1 == category.value)
      && (|name| > 0 ==> r.0 == name + "_" + base)
      && (name == "" ==> r.0 == base)
  {
  }

  /** The fallback name is `Unsicher_`, the digits of the drawn number (which
      read back as that number), and `.pdf`, with no other dot. */
  lemma FallbackNameShape(rand: nat)
    requires 1 <= rand <= RANDOM_MAX
    ensures var r := FallbackName(rand);
      var digits := r[|UNSURE| + 1..|r| - |PDF|];
      && r[..|UNSURE| + 1] == UNSURE + "_"
      && r[|r| - |PDF|..] == PDF
      && (forall i :: 0 <= i < |digits| ==> '0' <= digits[i] <= '9')
      && DecimalValue(digits) == rand
      && 1 <= |digits| <= 8
      && Count(r, '.') == 1
  {
    var digits := DecimalString(rand);
    var r := FallbackName(rand);
    assert r == (UNSURE + "_") + digits + PDF;
    assert r[|UNSURE| + 1..|r| - |PDF|] == digits;
    DecimalRoundTrip(rand);
    assert RANDOM_MAX < Pow10(8) by {
      assert Pow10(8) == 100000000;
    }
    DecimalLength(rand, 8);
    assert '.' !in digits by {
      forall i | 0 <= i < |digits| ensures digits[i] != '.' { }
    }
    FallbackDots(digits);
  }

  /** Digits between `Unsicher_` and `.pdf` leave a single dot. */
  lemma FallbackDots(digits: string)
    requires '.' !in digits
    ensures Count(UNSURE + "_" + digits + PDF, '.') == 1
  {
    CountAppend(UNSURE + "_" + digits, PDF, '.');
    CountAppend(UNSURE + "_", digits, '.');
    assert '.' !in UNSURE + "_";
    assert Count(PDF, '.') == 1 by { assert PDF == "." + "pdf"; CountAppend(".", "pdf", '.'); }
  }

  // The pipeline after OCR (`process_document`).

  /** `content[:2000]` */
  function Truncated(text: string): (r: string)
    ensures |r| <= TEXT_LIMIT
    ensures |text| <= TEXT_LIMIT ==> r == text
    ensures r == text[..|r|]
  {
    if |text| <= TEXT_LIMIT then text else text[..TEXT_LIMIT]
  }

  /** What the pipeline needs of its configuration: names and labels that the
      regular expressions read literally, none of them empty, and a drawn
      number in range. */
  predicate Configured(names: Names, labels: seq<string>, rand: nat) {
    LiteralNames(names) && Literals(names.firstNames) && Literals(labels) && 1 <= rand <= RANDOM_MAX
  }

  /** The end of `process_document`: an exception out of either task ends it
      (`None`); otherwise the fallbacks turn the two results and the name tag
      into a filename and a category. */
  function Assemble(nameRun: Outcome, categoryRun: Outcome, tag: string, rand: nat): (r: Option<(string, string)>)
    requires 1 <= rand <= RANDOM_MAX
  {
    if nameRun.Raised? || categoryRun.Raised? then None
    else Some(FilenameAndCategory(ValueOf(nameRun), ValueOf(categoryRun), tag, rand))
  }

  /** Nothing comes out exactly when a task raised; otherwise the filename is
      the tag (if any), `_` and the generated or fallback name, and the
      category is the category task's only when both tasks resolved. */
  lemma AssembleResult(nameRun: Outcome, categoryRun: Outcome, tag: string, rand: nat, labels: seq<string>)
    requires 1 <= rand <= RANDOM_MAX
    requires nameRun.Resolved? ==> nameRun.value != ""
    requires categoryRun.Resolved? ==> categoryRun.value != ""
    requires categoryRun.Resolved? ==> IsLabel(categoryRun.value, labels)
    ensures var r := Assemble(nameRun, categoryRun, tag, rand);
      var generated := if nameRun.Resolved? then nameRun.value else FallbackName(rand);
      && (r.None? <==> nameRun.Raised? || categoryRun.Raised?)
      && (r.Some? ==> r.value.0 == (if tag == "" then generated else tag + "_" + generated))
      && (r.Some? ==> r.value.1 == (if nameRun.Resolved? && categoryRun.Resolved? then categoryRun.value else UNSURE))
      && (r.Some? ==> r.value.1 == UNSURE || IsLabel(r.value.1, labels))
  {
    FilenameAndCategoryCases(ValueOf(nameRun), ValueOf(categoryRun), tag, rand);
  }

  /** Every hit a reader can produce is a non-empty string. */
  ghost predicate HitsNonEmpty(read: Reply --> Step)
    requires forall r :: read.requires(r)
  {
    forall r :: read(r).Hit? ==> read(r).value != ""
  }

  /** Every hit a reader can produce is a non-empty string and one of the
      labels, ignoring case. */
  ghost predicate HitsAreLabels(read: Reply --> Step, labels: seq<string>)
    requires forall r :: read.requires(r)
  {
    forall r :: read(r).Hit? ==> read(r).value != "" && IsLabel(read(r).value, labels)
  }

  /** The name task's outcome on the calls from `base`. */
  function NameRun(respond: (Prompt, nat) -> Reply, base: nat, namePrompt: nat -> Prompt, nameRead: Reply --> Step): Outcome
    requires forall r :: nameRead.requires(r)
  {
    Run(Attempts(respond, base, namePrompt, nameRead), 0)
  }

  /** The category task's outcome on the calls after those of the name task. */
  function CategoryRun(respond: (Prompt, nat) -> Reply, base: nat, namePrompt: nat -> Prompt, nameRead: Reply --> Step,
                       categoryPrompt: nat -> Prompt, categoryRead: Reply --> Step): Outcome
    requires (forall r :: nameRead.requires(r)) && (forall r :: categoryRead.requires(r))
  {
    TallyRun(Attempts(respond, base + CallsOf(NameRun(respond, base, namePrompt, nameRead)), categoryPrompt, categoryRead), 0, [])
  }

  /** The two tasks one after the other, the second on the calls after the
      first, then the fallbacks. */
  function Pipeline(respond: (Prompt, nat) -> Reply, base: nat, namePrompt: nat -> Prompt, nameRead: Reply --> Step,
                    categoryPrompt: nat -> Prompt, categoryRead: Reply --> Step, tag: string, rand: nat): (r: Option<(string, string)>)
    requires (forall r :: nameRead.requires(r)) && (forall r :: categoryRead.requires(r))
    requires 1 <= rand <= RANDOM_MAX
  {
    Assemble(NameRun(respond, base, namePrompt, nameRead),
             CategoryRun(respond, base, namePrompt, nameRead, categoryPrompt, categoryRead), tag, rand)
  }

  /** With readers whose hits are non-empty (and, for the category, labels):
      nothing comes out exactly when a task raised; otherwise the filename is
      the tag (if any), `_` and the first name found or the fallback name,
      and the category is the first category found when both tasks resolved
      and `Unsicher` otherwise, so always a label or `Unsicher`. */
  lemma PipelineResult(respond: (Prompt, nat) -> Reply, base: nat, namePrompt: nat -> Prompt, nameRead: Reply --> Step,
                       categoryPrompt: nat -> Prompt, categoryRead: Reply --> Step, tag: string, rand: nat, labels: seq<string>)
    requires (forall r :: nameRead.requires(r)) && (forall r :: categoryRead.requires(r))
    requires 1 <= rand <= RANDOM_MAX
    requires HitsNonEmpty(nameRead) && HitsAreLabels(categoryRead, labels)
    ensures var nameRun := Run(Attempts(respond, base, namePrompt, nameRead), 0);
      var categoryRun := Run(Attempts(respond, base + CallsOf(nameRun), categoryPrompt, categoryRead), 0);
      var r := Pipeline(respond, base, namePrompt, nameRead, categoryPrompt, categoryRead, tag, rand);
      var generated := if nameRun.Resolved? then nameRun.value else FallbackName(rand);
      && (r.None? <==> nameRun.Raised? || categoryRun.Raised?)
      && (r.Some? ==> r.value.0 == (if tag == "" then generated else tag + "_" + generated))
      && (r.Some? ==> r.value.1 == (if nameRun.Resolved? && categoryRun.Resolved? then categoryRun.value else UNSURE))
      && (r.Some? ==> r.value.1 == UNSURE || IsLabel(r.value.1, labels))
  {
    var nameRun := Run(Attempts(respond, base, namePrompt, nameRead), 0);
    FirstHit(respond, base, namePrompt, nameRead);
    assert HitsNonEmpty(categoryRead);
    FirstHit(respond, base + CallsOf(nameRun), categoryPrompt, categoryRead);
    var categoryRun := Run(Attempts(respond, base + CallsOf(nameRun), categoryPrompt, categoryRead), 0);
    AssembleResult(nameRun, categoryRun, tag, rand, labels);
  }

  /** With a reader whose hits are non-empty, counting votes ends where the
      plain loop does, and a resolved task took its value from the reply to
      the attempt where it stopped. */
  lemma FirstHit(respond: (Prompt, nat) -> Reply, base: nat, prompt: nat -> Prompt, read: Reply --> Step)
    requires forall r :: read.requires(r)
    requires HitsNonEmpty(read)
    ensures var steps := Attempts(respond, base, prompt, read);
      var o := Run(steps, 0);
      && TallyRun(steps, 0, []) == o
      && (o.Resolved? ==> o.attempt < ATTEMPTS && read(respond(prompt(TemplateOf(o.attempt)), base + o.attempt)) == Hit(o.value))
  {
    var steps := Attempts(respond, base, prompt, read);
    forall j | 0 <= j < |steps| && steps[j].Hit?
      ensures steps[j].value != ""
    {
      AttemptAt(respond, base, prompt, read, j);
    }
    VoteRunIsFirstHit(steps, 0);
    var o := Run(steps, 0);
    RunSpec(steps, 0);
    if o.Resolved? {
      AttemptAt(respond, base, prompt, read, o.attempt);
    }
  }

  /** The name reader's hits are non-empty. */
  lemma NameReaderHits(names: Names, date: string)
    requires LiteralNames(names)
    ensures HitsNonEmpty(NameReader(names, date))
  {
    forall r ensures NameReader(names, date)(r).Hit? ==> NameReader(names, date)(r).value != "" {
      var s := NameStep(r, names, date);
    }
  }

  /** The category reader's hits are non-empty labels. */
  lemma CategoryReaderHits(labels: seq<string>)
    requires Literals(labels)
    ensures HitsAreLabels(CategoryReader(labels), labels)
  {
    forall r ensures CategoryReader(labels)(r).Hit? ==> CategoryReader(labels)(r).value != "" && IsLabel(CategoryReader(labels)(r).value, labels) {
      var s := CategoryStep(r, labels);
    }
  }

  /** The pipeline on the truncated text: the name tag from the first names,
      then the name task, then the category task on the calls after it, then
      the fallbacks. */
  function Process(respond: (Prompt, nat) -> Reply, base: nat, content: string, names: Names, labels: seq<string>,
                   date: string, rand: nat): (r: Option<(string, string)>)
    requires Configured(names, labels, rand)
  {
    Pipeline(respond, base, NamePrompts(NameJob(content, "", names, date)), NameReader(names, date),
             CategoryPrompts(CategoryJob(content, "", labels)), CategoryReader(labels),
             NamePart(FindWords(content, names.firstNames)), rand)
  }

  /** Two OCR texts that agree on their first 2000 characters are the same
      document to the pipeline. */
  lemma TruncatedReadsPrefix(a: string, b: string)
    requires |a| >= TEXT_LIMIT && |b| >= TEXT_LIMIT && a[..TEXT_LIMIT] == b[..TEXT_LIMIT]
    ensures Truncated(a) == Truncated(b)
  {
  }

  /** The two tasks of `process_document` one after the other, then the
      fallbacks: an exception out of either task ends it with nothing. */
  method RunTasks(llm: Llm, stats: PromptStats, namePrompt: nat -> Prompt, nameRead: Reply --> Step,
                  categoryPrompt: nat -> Prompt, categoryRead: Reply --> Step, tag: string, rand: nat)
    returns (result: Option<(string, string)>)
    requires stats.Valid() && (forall r :: nameRead.requires(r)) && (forall r :: categoryRead.requires(r))
    requires 1 <= rand <= RANDOM_MAX
    modifies llm, stats
    ensures result == Pipeline(llm.respond, old(llm.calls), namePrompt, nameRead, categoryPrompt, categoryRead, tag, rand)
    ensures var nameRun := NameRun(llm.respond, old(llm.calls), namePrompt, nameRead);
      var categoryRun := CategoryRun(llm.respond, old(llm.calls), namePrompt, nameRead, categoryPrompt, categoryRead);
      && stats.Valid() && stats.name == Recorded(old(stats.name), nameRun)
      && (nameRun.Raised? ==> llm.calls == old(llm.calls) + CallsOf(nameRun) && stats.category == old(stats.category))
      && (!nameRun.Raised? ==> llm.calls == old(llm.calls) + CallsOf(nameRun) + CallsOf(categoryRun)
                               && stats.category == Recorded(old(stats.category), categoryRun))
  {
    var docName, nameRaised := RecordedRetry(llm, stats, namePrompt, nameRead);
    if nameRaised {
      return None;
    }
    var docCategory, categoryRaised := RecordedVote(llm, stats, categoryPrompt, categoryRead);
    if categoryRaised {
      return None;
    }
    return Some(FilenameAndCategory(docName, docCategory, tag, rand));
  }

  /** `process_document` after the OCR step. */
  method ProcessDocument(llm: Llm, stats: PromptStats, ocrText: string, names: Names, labels: seq<string>,
                         date: string, rand: nat) returns (result: Option<(string, string)>)
    requires Configured(names, labels, rand) && stats.Valid()
    modifies llm, stats
    ensures result == Process(llm.respond, old(llm.calls), Truncated(ocrText), names, labels, date, rand)
    ensures var content := Truncated(ocrText);
      var namePrompt, nameRead := NamePrompts(NameJob(content, "", names, date)), NameReader(names, date);
      var categoryPrompt, categoryRead := CategoryPrompts(CategoryJob(content, "", labels)), CategoryReader(labels);
      var nameRun := NameRun(llm.respond, old(llm.calls), namePrompt, nameRead);
      var categoryRun := CategoryRun(llm.respond, old(llm.calls), namePrompt, nameRead, categoryPrompt, categoryRead);
      && stats.Valid() && stats.name == Recorded(old(stats.name), nameRun)
      && (nameRun.Raised? ==> llm.calls == old(llm.calls) + CallsOf(nameRun) && stats.category == old(stats.category))
      && (!nameRun.Raised? ==> llm.calls == old(llm.calls) + CallsOf(nameRun) + CallsOf(categoryRun)
                               && stats.category == Recorded(old(stats.category), categoryRun))
  {
    ghost var base := llm.calls;
    var content := Truncated(ocrText);
    var namePart := GetNamePart(content, names.firstNames);
    var nameJob, categoryJob := NameJob(content, "", names, date), CategoryJob(content, "", labels);
    result := RunTasks(llm, stats, NamePrompts(nameJob), NameReader(names, date),
                       CategoryPrompts(categoryJob), CategoryReader(labels), namePart, rand);
  }
}
