/**
 * The exam generator (generate_exam). One attempt walks the positions 0 .. questions_amount-1,
 * gives each a target difficulty, draws one question from the pool and keeps it only when it has
 * that difficulty and is not already in the exam; the restart loop repeats attempts until one
 * meets the question count, the point total and the title coverage.
 *
 * random.randint is replaced by supplied draws: at position i the attempt uses index
 * draws[i] % |pool|, which is draws[i] itself whenever the draw is in range. The unbounded
 * restart loop is given a budget: one draw sequence per attempt.
 */
module Generator {
  import opened Wrappers
  import opened Strings
  import opened Errors
  import opened Catalog
  import opened Settings

  datatype Level = Hard | Medium | Easy {
    function Name(): (s: string)
      ensures s in Levels
    {
      match this
      case Hard => "Hard"
      case Medium => "Medium"
      case Easy => "Easy"
    }

    /** The counts of one question of this level. */
    function Unit(): Counts {
      match this
      case Hard => Counts(1, 0, 0)
      case Medium => Counts(0, 1, 0)
      case Easy => Counts(0, 0, 1)
    }
  }

  /** The difficulty that position i of an exam asks for. */
  function Target(i: int, cfg: Config): Level {
    if i < cfg.hard then Hard
    else if i < cfg.hard + cfg.medium then Medium
    else Easy
  }

  /** The target difficulties of positions 0 .. k-1. */
  function Targets(k: nat, cfg: Config): (t: seq<string>)
    ensures |t| == k
  {
    if k == 0 then [] else Targets(k - 1, cfg) + [Target(k - 1, cfg).Name()]
  }

  /** difficulty_counts: how many questions of each difficulty. */
  datatype Counts = Counts(hard: int, medium: int, easy: int) {
    function Bump(level: string): Counts {
      if level == "Hard" then this.(hard := hard + 1)
      else if level == "Medium" then this.(medium := medium + 1)
      else if level == "Easy" then this.(easy := easy + 1)
      else this
    }

    function Total(): int {
      hard + medium + easy
    }

    function Plus(o: Counts): Counts {
      Counts(hard + o.hard, medium + o.medium, easy + o.easy)
    }
  }

  /** The counts of a sequence of difficulty names. */
  function Tally(ds: seq<string>): Counts {
    var m := multiset(ds);
    Counts(m["Hard"], m["Medium"], m["Easy"])
  }

  /** One more name bumps its own count. */
  lemma TallyAppend(ds: seq<string>, d: string)
    ensures Tally(ds + [d]) == Tally(ds).Bump(d)
  {
    assert multiset(ds + [d]) == multiset(ds) + multiset{d};
  }

  /** When every name is a difficulty level, the three counts add up to the length. */
  lemma {:induction false} TallyTotal(ds: seq<string>)
    requires forall k :: 0 <= k < |ds| ==> ds[k] in Levels
    ensures Tally(ds).Total() == |ds|
  {
    if ds != [] {
      var init := ds[..|ds| - 1];
      assert ds == init + [ds[|ds| - 1]];
      assert forall k :: 0 <= k < |init| ==> init[k] == ds[k];
      TallyTotal(init);
      TallyAppend(init, ds[|ds| - 1]);
    }
  }

  /** The difficulty column of an exam. */
  function Difficulties(exam: seq<Question>): seq<string> {
    seq(|exam|, k requires 0 <= k < |exam| => exam[k].difficulty)
  }

  /** The sum of the exam's scores read as integers; a score that does not parse counts 0, a case
      that Scored rules out. */
  function SumScores(exam: seq<Question>): int {
    if exam == [] then 0
    else SumScores(exam[..|exam| - 1]) + ParseInt(exam[|exam| - 1].score).GetOr(0)
  }

  predicate Scored(exam: seq<Question>) {
    forall q :: q in exam ==> ParseInt(q.score).Some?
  }

  function TitlesOf(exam: seq<Question>): set<string> {
    set q | q in exam :: q.title
  }

  predicate Distinct<T(==)>(s: seq<T>) {
    forall a, b :: 0 <= a < b < |s| ==> s[a] != s[b]
  }

  function Elements<T>(s: seq<T>): set<T> {
    set x | x in s
  }

  /** Each piece stripped of surrounding whitespace, in order. */
  function StripAll(parts: seq<string>): (r: seq<string>)
    ensures |r| == |parts| && forall k :: 0 <= k < |parts| ==> r[k] == Strip(parts[k])
  {
    if parts == [] then [] else [Strip(parts[0])] + StripAll(parts[1..])
  }

  /** The split-and-stripped exclusion list; only exclude_list[0] is read, and an empty list
      raises IndexError (code 520). */
  function ExcludedTitles(excludeList: seq<string>): (r: Result<seq<string>, Error>)
    ensures r.Err? <==> excludeList == []
    ensures r.Err? ==> r.error.Unexpected?
    ensures r.Ok? ==> forall t :: t in r.value ==> ',' !in t && Strip(t) == t
  {
    if excludeList == [] then Err(Unexpected(IndexOutOfRange))
    else
      var parts := Split(excludeList[0], ',');
      var titles := StripAll(parts);
      assert forall t :: t in titles ==> ',' !in t && Strip(t) == t by {
        forall t | t in titles ensures ',' !in t && Strip(t) == t {
          var k :| 0 <= k < |titles| && titles[k] == t;
          assert parts[k] in parts;
          if ',' in t { StripKeeps(parts[k], ','); }
          StripIdempotent(parts[k]);
        }
      }
      Ok(titles)
  }

  /** The catalog questions, in order, whose title is not among the excluded titles. */
  function Filter(questions: seq<Question>, excluded: seq<string>): (r: seq<Question>)
    ensures forall q :: multiset(r)[q] == if q.title in excluded then 0 else multiset(questions)[q]
    ensures IsSubseq(r, questions)
  {
    if questions == [] then []
    else
      var rest := Filter(questions[1..], excluded);
      assert questions == [questions[0]] + questions[1..];
      if questions[0].title in excluded then
        assert rest != [] ==> rest[0] != questions[0] by {
          if rest != [] {
            assert rest[0] in rest;
            assert multiset(rest)[rest[0]] > 0;
          }
        }
        rest
      else
        assert ([questions[0]] + rest)[1..] == rest;
        [questions[0]] + rest
  }

  lemma FilterMembers(questions: seq<Question>, excluded: seq<string>, q: Question)
    requires q in Filter(questions, excluded)
    ensures q in questions && q.title !in excluded
  {
    assert multiset(Filter(questions, excluded))[q] > 0;
  }

  /** The state of one attempt: exam, total_points, difficulty_counts, total_titles and the
      remaining filtered_questions. */
  datatype Attempt = Attempt(exam: seq<Question>, totalPoints: int, counts: Counts,
                             titles: seq<string>, pool: seq<Question>)

  /** What an attempt keeps true of its running totals, whatever the draws were. */
  predicate Consistent(filtered: seq<Question>, cfg: Config, a: Attempt) {
    && |a.exam| <= (if cfg.questionsAmount < 0 then 0 else cfg.questionsAmount)
    && Scored(a.exam) && a.totalPoints == SumScores(a.exam)
    && a.counts == Tally(Difficulties(a.exam))
    && (forall q :: q in a.exam ==> q.difficulty in Levels)
    && Distinct(a.titles) && Elements(a.titles) == TitlesOf(a.exam)
    && Distinct(a.exam)
    && multiset(a.pool) + multiset(a.exam) == multiset(filtered)
    && (|a.exam| == cfg.questionsAmount ==> Difficulties(a.exam) == Targets(|a.exam|, cfg))
  }

  /** Appending one question extends each running total by that question. */
  lemma Appended(exam: seq<Question>, q: Question)
    ensures SumScores(exam + [q]) == SumScores(exam) + ParseInt(q.score).GetOr(0)
    ensures Difficulties(exam + [q]) == Difficulties(exam) + [q.difficulty]
    ensures TitlesOf(exam + [q]) == TitlesOf(exam) + {q.title}
    ensures Tally(Difficulties(exam) + [q.difficulty]) == Tally(Difficulties(exam)).Bump(q.difficulty)
  {
    TallyAppend(Difficulties(exam), q.difficulty);
    assert (exam + [q])[..|exam|] == exam;
    var ds := Difficulties(exam);
    assert (ds + [q.difficulty])[..|ds|] == ds;
    forall t | t in TitlesOf(exam + [q]) ensures t in TitlesOf(exam) + {q.title} {
      var p :| p in exam + [q] && p.title == t;
      if p != q { assert p in exam; }
    }
  }

  /** Consistent, stated for the first i positions of an attempt still in progress. */
  predicate Progress(filtered: seq<Question>, cfg: Config, i: nat, a: Attempt) {
    && |a.exam| <= i
    && Scored(a.exam) && a.totalPoints == SumScores(a.exam)
    && a.counts == Tally(Difficulties(a.exam))
    && (forall q :: q in a.exam ==> q.difficulty in Levels)
    && Distinct(a.titles) && Elements(a.titles) == TitlesOf(a.exam)
    && Distinct(a.exam)
    && multiset(a.pool) + multiset(a.exam) == multiset(filtered)
    && (|a.exam| == i ==> Difficulties(a.exam) == Targets(i, cfg))
  }

  /** A rejected draw leaves everything as it was and position i unfilled. */
  lemma Rejected(filtered: seq<Question>, cfg: Config, i: nat, a: Attempt)
    requires Progress(filtered, cfg, i, a)
    ensures Progress(filtered, cfg, i + 1, a)
  {
  }

  lemma ScoreAdded(exam: seq<Question>, q: Question, v: int)
    requires Scored(exam) && ParseInt(q.score) == Some(v)
    ensures Scored(exam + [q]) && SumScores(exam + [q]) == SumScores(exam) + v
  {
    Appended(exam, q);
    forall p | p in exam + [q] ensures ParseInt(p.score).Some? {
      if p != q { assert p in exam; }
    }
  }

  lemma LevelCounted(exam: seq<Question>, q: Question, counts: Counts)
    requires counts == Tally(Difficulties(exam)) && forall p :: p in exam ==> p.difficulty in Levels
    requires q.difficulty in Levels
    ensures counts.Bump(q.difficulty) == Tally(Difficulties(exam + [q]))
    ensures forall p :: p in exam + [q] ==> p.difficulty in Levels
  {
    Appended(exam, q);
    forall p | p in exam + [q] ensures p.difficulty in Levels {
      if p != q { assert p in exam; }
    }
  }

  lemma NewQuestion(exam: seq<Question>, q: Question)
    requires Distinct(exam) && q !in exam
    ensures Distinct(exam + [q])
  {
    var e := exam + [q];
    forall x, y | 0 <= x < y < |e| ensures e[x] != e[y] {
      if y == |exam| { assert e[x] == exam[x]; assert exam[x] in exam; }
    }
  }

  lemma Popped(pool: seq<Question>, exam: seq<Question>, filtered: seq<Question>, k: nat)
    requires k < |pool| && multiset(pool) + multiset(exam) == multiset(filtered)
    ensures multiset(pool[..k] + pool[k + 1..]) + multiset(exam + [pool[k]]) == multiset(filtered)
  {
    assert pool == pool[..k] + [pool[k]] + pool[k + 1..];
  }

  lemma PositionFilled(exam: seq<Question>, q: Question, cfg: Config, i: nat)
    requires |exam| <= i && (|exam| == i ==> Difficulties(exam) == Targets(i, cfg))
    requires q.difficulty == Target(i, cfg).Name()
    ensures |exam + [q]| == i + 1 ==> Difficulties(exam + [q]) == Targets(i + 1, cfg)
  {
    Appended(exam, q);
  }

  lemma TitleRecorded(exam: seq<Question>, q: Question, titles: seq<string>)
    requires Distinct(titles) && Elements(titles) == TitlesOf(exam)
    ensures var t := if q.title in titles then titles else titles + [q.title];
      Distinct(t) && Elements(t) == TitlesOf(exam + [q])
  {
    Appended(exam, q);
    if q.title !in titles {
      var t := titles + [q.title];
      assert Elements(t) == Elements(titles) + {q.title};
      forall x, y | 0 <= x < y < |t| ensures t[x] != t[y] {
        if y == |titles| { assert t[x] == titles[x]; assert titles[x] in titles; }
      }
    }
  }

  /** An accepted draw at position i: appended to the exam, its score added, its difficulty
      counted, its title recorded once, and the question popped from the pool. */
  lemma Accepted(filtered: seq<Question>, cfg: Config, i: nat, a: Attempt, k: nat, q: Question, v: int,
                 next: Attempt)
    requires Progress(filtered, cfg, i, a)
    requires k < |a.pool| && q == a.pool[k] && q !in a.exam
    requires q.difficulty == Target(i, cfg).Name()
    requires ParseInt(q.score) == Some(v)
    requires next == Attempt(a.exam + [q], a.totalPoints + v, a.counts.Bump(q.difficulty),
                             if q.title in a.titles then a.titles else a.titles + [q.title],
                             a.pool[..k] + a.pool[k + 1..])
    ensures Progress(filtered, cfg, i + 1, next)
  {
    ScoreAdded(a.exam, q, v);
    LevelCounted(a.exam, q, a.counts);
    NewQuestion(a.exam, q);
    Popped(a.pool, a.exam, filtered, k);
    PositionFilled(a.exam, q, cfg, i);
    TitleRecorded(a.exam, q, a.titles);
  }

  /** When the loop over positions ends, early or not, its totals are those of Consistent. */
  lemma Concluded(filtered: seq<Question>, cfg: Config, i: nat, a: Attempt)
    requires Progress(filtered, cfg, i, a) && (i <= cfg.questionsAmount || i == 0)
    ensures Consistent(filtered, cfg, a)
  {
  }

  lemma PoolMember(pool: seq<Question>, exam: seq<Question>, filtered: seq<Question>, k: nat)
    requires k < |pool| && multiset(pool) + multiset(exam) == multiset(filtered)
    ensures pool[k] in filtered
  {
    assert pool[k] in pool;
    assert multiset(filtered)[pool[k]] >= multiset(pool)[pool[k]] > 0;
  }

  /** What one position i of the for-loop does with a non-empty pool: the question at index
      draw % |pool| is taken when it is new to the exam and has the position's target
      difficulty (appended, its score added, its difficulty counted, its title recorded once,
      popped from the pool), and otherwise the state stays as it was. int() on the score of a
      taken question that does not parse raises, which the generic handler turns into 520. */
  function Step(cfg: Config, i: nat, a: Attempt, draw: nat): Result<Attempt, Error>
    requires a.pool != []
  {
    var k := draw % |a.pool|;
    var q := a.pool[k];
    if q in a.exam || q.difficulty != Target(i, cfg).Name() then Ok(a)
    else match ParseInt(q.score)
      case None => Err(Unexpected(InvalidLiteral(q.score)))
      case Some(v) =>
        Ok(Attempt(a.exam + [q], a.totalPoints + v, a.counts.Bump(q.difficulty),
                   if q.title in a.titles then a.titles else a.titles + [q.title],
                   a.pool[..k] + a.pool[k + 1..]))
  }

  /** The for-loop from position i on: it stops at questions_amount, or earlier when the pool
      is empty, or when a step raises. */
  function Run(cfg: Config, draws: seq<nat>, i: nat, a: Attempt): Result<Attempt, Error>
    requires cfg.questionsAmount <= |draws|
    decreases cfg.questionsAmount - i
  {
    if i >= cfg.questionsAmount || a.pool == [] then Ok(a)
    else match Step(cfg, i, a, draws[i])
      case Err(e) => Err(e)
      case Ok(b) => Run(cfg, draws, i + 1, b)
  }

  /** exam, total_points, total_titles and difficulty_counts as each attempt starts them. */
  function Initial(filtered: seq<Question>): Attempt {
    Attempt([], 0, Counts(0, 0, 0), [], filtered)
  }

  /** One whole attempt on the filtered pool with the given draws. */
  function RunAttempt(filtered: seq<Question>, cfg: Config, draws: seq<nat>): Result<Attempt, Error>
    requires cfg.questionsAmount <= |draws|
  {
    Run(cfg, draws, 0, Initial(filtered))
  }

  /** The three outcomes of one step at position i, with k the drawn index draw % |pool|:
      a question already in the exam or off target leaves the state unchanged; a new question
      on target is appended, scored, counted, has its title recorded once and is popped from
      index k; and if its score does not parse, int() raises. */
  lemma StepCases(cfg: Config, i: nat, a: Attempt, draw: nat)
    requires a.pool != []
    ensures (a.pool[draw % |a.pool|] in a.exam
             || a.pool[draw % |a.pool|].difficulty != Target(i, cfg).Name()) ==>
              Step(cfg, i, a, draw) == Ok(a)
    ensures a.pool[draw % |a.pool|] !in a.exam
            && a.pool[draw % |a.pool|].difficulty == Target(i, cfg).Name()
            && ParseInt(a.pool[draw % |a.pool|].score).None? ==>
              Step(cfg, i, a, draw) == Err(Unexpected(InvalidLiteral(a.pool[draw % |a.pool|].score)))
    ensures a.pool[draw % |a.pool|] !in a.exam
            && a.pool[draw % |a.pool|].difficulty == Target(i, cfg).Name()
            && ParseInt(a.pool[draw % |a.pool|].score).Some? ==>
              Step(cfg, i, a, draw)
              == Ok(Attempt(a.exam + [a.pool[draw % |a.pool|]],
                            a.totalPoints + ParseInt(a.pool[draw % |a.pool|].score).value,
                            a.counts.Bump(a.pool[draw % |a.pool|].difficulty),
                            if a.pool[draw % |a.pool|].title in a.titles then a.titles
                            else a.titles + [a.pool[draw % |a.pool|].title],
                            a.pool[..draw % |a.pool|] + a.pool[draw % |a.pool| + 1..]))
  {
  }

  // StepRejects, StepTakes and RunStep only unfold Step and Run for one case each; they keep
  // the case analysis of RunConsistent and FillPositions small enough to verify quickly.

  lemma StepRejects(cfg: Config, i: nat, a: Attempt, draw: nat)
    requires a.pool != []
    requires a.pool[draw % |a.pool|] in a.exam || a.pool[draw % |a.pool|].difficulty != Target(i, cfg).Name()
    ensures Step(cfg, i, a, draw) == Ok(a)
  {
  }

  lemma StepTakes(cfg: Config, i: nat, a: Attempt, draw: nat, k: nat, q: Question, v: int, next: Attempt)
    requires a.pool != [] && k == draw % |a.pool| && q == a.pool[k]
    requires q !in a.exam && q.difficulty == Target(i, cfg).Name() && ParseInt(q.score) == Some(v)
    requires next == Attempt(a.exam + [q], a.totalPoints + v, a.counts.Bump(q.difficulty),
                             if q.title in a.titles then a.titles else a.titles + [q.title],
                             a.pool[..k] + a.pool[k + 1..])
    ensures Step(cfg, i, a, draw) == Ok(next)
  {
  }

  lemma RaisedUnscored(filtered: seq<Question>, cfg: Config, i: nat, a: Attempt, draw: nat)
    requires Progress(filtered, cfg, i, a) && a.pool != []
    requires a.pool[draw % |a.pool|] !in a.exam
    requires a.pool[draw % |a.pool|].difficulty == Target(i, cfg).Name()
    requires ParseInt(a.pool[draw % |a.pool|].score).None?
    ensures Step(cfg, i, a, draw).Err? && Step(cfg, i, a, draw).error.Unexpected? && !Scored(filtered)
  {
    StepCases(cfg, i, a, draw);
    PoolMember(a.pool, a.exam, filtered, draw % |a.pool|);
  }

  /** What a finished attempt promises: Consistent when it ran through, and an error only when
      the pool holds a question whose score does not parse. */
  predicate Sound(filtered: seq<Question>, cfg: Config, r: Result<Attempt, Error>) {
    && (r.Ok? ==> Consistent(filtered, cfg, r.value))
    && (r.Err? ==> r.error.Unexpected? && !Scored(filtered))
  }

  /** Run at a position that draws: one step, then the rest of the loop. */
  lemma RunStep(cfg: Config, draws: seq<nat>, i: nat, a: Attempt)
    requires cfg.questionsAmount <= |draws| && i < cfg.questionsAmount && a.pool != []
    ensures Step(cfg, i, a, draws[i]).Ok? ==>
              Run(cfg, draws, i, a) == Run(cfg, draws, i + 1, Step(cfg, i, a, draws[i]).value)
    ensures Step(cfg, i, a, draws[i]).Err? ==> Run(cfg, draws, i, a) == Step(cfg, i, a, draws[i])
  {
  }

  lemma RunStopped(filtered: seq<Question>, cfg: Config, draws: seq<nat>, i: nat, a: Attempt)
    requires cfg.questionsAmount <= |draws|
    requires Progress(filtered, cfg, i, a) && (i <= cfg.questionsAmount || i == 0)
    requires i >= cfg.questionsAmount || a.pool == []
    ensures Sound(filtered, cfg, Run(cfg, draws, i, a))
  {
    assert Run(cfg, draws, i, a) == Ok(a);
    Concluded(filtered, cfg, i, a);
  }

  lemma RunContinues(filtered: seq<Question>, cfg: Config, draws: seq<nat>, i: nat, a: Attempt, b: Attempt)
    requires cfg.questionsAmount <= |draws|
    requires i < cfg.questionsAmount && a.pool != []
    requires Step(cfg, i, a, draws[i]) == Ok(b)
    requires Sound(filtered, cfg, Run(cfg, draws, i + 1, b))
    ensures Sound(filtered, cfg, Run(cfg, draws, i, a))
  {
    RunStep(cfg, draws, i, a);
  }

  /** Whatever the draws, a finished attempt is Sound. */
  lemma {:induction false} RunConsistent(filtered: seq<Question>, cfg: Config, draws: seq<nat>,
                                         i: nat, a: Attempt)
    requires cfg.questionsAmount <= |draws|
    requires Progress(filtered, cfg, i, a) && (i <= cfg.questionsAmount || i == 0)
    ensures Sound(filtered, cfg, Run(cfg, draws, i, a))
    decreases cfg.questionsAmount - i, 1
  {
    if i >= cfg.questionsAmount || a.pool == [] {
      RunStopped(filtered, cfg, draws, i, a);
    } else {
      var k := draws[i] % |a.pool|;
      var q := a.pool[k];
      if q in a.exam || q.difficulty != Target(i, cfg).Name() {
        StepRejects(cfg, i, a, draws[i]);
        Rejected(filtered, cfg, i, a);
        StepConsistent(filtered, cfg, draws, i, a, a);
      } else if ParseInt(q.score).Some? {
        var v := ParseInt(q.score).value;
        var next := Attempt(a.exam + [q], a.totalPoints + v, a.counts.Bump(q.difficulty),
                            if q.title in a.titles then a.titles else a.titles + [q.title],
                            a.pool[..k] + a.pool[k + 1..]);
        StepTakes(cfg, i, a, draws[i], k, q, v, next);
        Accepted(filtered, cfg, i, a, k, q, v, next);
        StepConsistent(filtered, cfg, draws, i, a, next);
      } else {
        RaisedUnscored(filtered, cfg, i, a, draws[i]);
        RunStep(cfg, draws, i, a);
      }
    }
  }

  lemma {:induction false} StepConsistent(filtered: seq<Question>, cfg: Config, draws: seq<nat>,
                                          i: nat, a: Attempt, b: Attempt)
    requires cfg.questionsAmount <= |draws|
    requires i < cfg.questionsAmount && a.pool != []
    requires Step(cfg, i, a, draws[i]) == Ok(b) && Progress(filtered, cfg, i + 1, b)
    ensures Sound(filtered, cfg, Run(cfg, draws, i, a))
    decreases cfg.questionsAmount - i, 0
  {
    RunConsistent(filtered, cfg, draws, i + 1, b);
    RunContinues(filtered, cfg, draws, i, a, b);
  }

  /** One position i of the for-loop: draw, test the duplicate and difficulty checks, and on
      acceptance append, add the score, count the difficulty, record the title and pop. */
  method FillPosition(cfg: Config, i: nat, a: Attempt, draw: nat)
    returns (r: Result<Attempt, Error>)
    requires a.pool != []
    ensures (a.pool[draw % |a.pool|] in a.exam
             || a.pool[draw % |a.pool|].difficulty != Target(i, cfg).Name()) ==> r == Ok(a)
    ensures a.pool[draw % |a.pool|] !in a.exam
            && a.pool[draw % |a.pool|].difficulty == Target(i, cfg).Name()
            && ParseInt(a.pool[draw % |a.pool|].score).None? ==>
              r == Err(Unexpected(InvalidLiteral(a.pool[draw % |a.pool|].score)))
    ensures a.pool[draw % |a.pool|] !in a.exam
            && a.pool[draw % |a.pool|].difficulty == Target(i, cfg).Name()
            && ParseInt(a.pool[draw % |a.pool|].score).Some? ==>
              r == Ok(Attempt(a.exam + [a.pool[draw % |a.pool|]],
                              a.totalPoints + ParseInt(a.pool[draw % |a.pool|].score).value,
                              a.counts.Bump(a.pool[draw % |a.pool|].difficulty),
                              if a.pool[draw % |a.pool|].title in a.titles then a.titles
                              else a.titles + [a.pool[draw % |a.pool|].title],
                              a.pool[..draw % |a.pool|] + a.pool[draw % |a.pool| + 1..]))
    ensures r == Step(cfg, i, a, draw)
  {
    var k := draw % |a.pool|;
    var q := a.pool[k];
    if q !in a.exam && q.difficulty == Target(i, cfg).Name() {
      var score := ParseInt(q.score);
      if score.None? {
        r := Err(Unexpected(InvalidLiteral(q.score)));
      } else {
        r := Ok(Attempt(a.exam + [q], a.totalPoints + score.value, a.counts.Bump(q.difficulty),
                        if q.title in a.titles then a.titles else a.titles + [q.title],
                        a.pool[..k] + a.pool[k + 1..]));
      }
    } else {
      r := Ok(a);
    }
  }

  /** One attempt: the for-loop over positions, on the state exam, total_points,
      difficulty_counts, total_titles and filtered_questions. */
  method FillPositions(filtered: seq<Question>, cfg: Config, draws: seq<nat>) returns (r: Result<Attempt, Error>)
    requires cfg.questionsAmount <= |draws|
    ensures r == RunAttempt(filtered, cfg, draws)
    ensures r.Ok? ==> Consistent(filtered, cfg, r.value)
    ensures r.Err? ==> r.error.Unexpected? && !Scored(filtered)
    ensures cfg.questionsAmount <= 0 ==> r == Ok(Initial(filtered))
  {
    var a := Initial(filtered);
    var i := 0;
    while i < cfg.questionsAmount
      invariant Run(cfg, draws, i, a) == RunAttempt(filtered, cfg, draws)
      invariant i == 0 ==> a == Initial(filtered)
    {
      if a.pool == [] {
        break;
      }
      var step := FillPosition(cfg, i, a, draws[i]);
      RunStep(cfg, draws, i, a);
      if step.Err? {
        RunConsistent(filtered, cfg, draws, 0, Initial(filtered));
        return Err(step.error);
      }
      a := step.value;
      i := i + 1;
    }
    RunConsistent(filtered, cfg, draws, 0, Initial(filtered));
    return Ok(a);
  }

  /** The exam part of the 4-tuple generate_exam returns (the float ratios are replaced by the
      counts they are computed from). */
  datatype Exam = Exam(questions: seq<Question>, totalPoints: int, counts: Counts, titles: seq<string>)

  datatype Outcome =
    | Generated(exam: Exam)         // the 4-tuple
    | NoQuestions(totalPoints: int) // (None, total_points, {})
    | Failed(error: Error)          // a "LIST ... && code" string
    | BudgetExhausted               // the supplied attempts ran out (see SearchExhausted)

  function ExamOf(a: Attempt): Exam {
    Exam(a.exam, a.totalPoints, a.counts, a.titles)
  }

  /** Everything the source promises of a returned exam. */
  predicate ValidExam(questions: seq<Question>, cfg: Config, excluded: seq<string>, g: Exam) {
    && |g.questions| == cfg.questionsAmount
    && Scored(g.questions) && g.totalPoints == SumScores(g.questions) && g.totalPoints == cfg.points
    && Difficulties(g.questions) == Targets(|g.questions|, cfg)
    && g.counts == Tally(Difficulties(g.questions))
    && Distinct(g.titles) && Elements(g.titles) == TitlesOf(g.questions)
    && |g.titles| >= cfg.minimumTitles
    && Distinct(g.questions)
    && multiset(g.questions) <= multiset(Filter(questions, excluded))
  }

  /** An attempt that the restart loop throws away: it finished, and either it is short of
      questions_amount or it misses the points or the title check (an attempt with no
      counted difficulty returns instead). */
  predicate Retried(cfg: Config, r: Result<Attempt, Error>) {
    r.Ok? && (|r.value.exam| != cfg.questionsAmount
              || (r.value.counts.Total() != 0
                  && (r.value.totalPoints != cfg.points || |r.value.titles| < cfg.minimumTitles)))
  }

  /** An attempt that passes every final check. */
  predicate Passes(cfg: Config, a: Attempt) {
    |a.exam| == cfg.questionsAmount && a.counts.Total() != 0
    && a.totalPoints == cfg.points && |a.titles| >= cfg.minimumTitles
  }

  /** The restart loop over the supplied attempts, once the catalog and the exclusion list
      passed: the first attempt that is not thrown away decides the outcome. */
  function Search(filtered: seq<Question>, cfg: Config, attempts: seq<seq<nat>>): Outcome
    requires forall j :: 0 <= j < |attempts| ==> cfg.questionsAmount <= |attempts[j]|
    decreases |attempts|
  {
    if attempts == [] then BudgetExhausted
    else match RunAttempt(filtered, cfg, attempts[0])
      case Err(e) => Failed(e)
      case Ok(a) =>
        if |a.exam| != cfg.questionsAmount then Search(filtered, cfg, attempts[1..])
        else if a.counts.Total() == 0 then NoQuestions(a.totalPoints)
        else if a.totalPoints != cfg.points || |a.titles| < cfg.minimumTitles then
          Search(filtered, cfg, attempts[1..])
        else Generated(ExamOf(a))
  }

  /** The pool every attempt draws from: the catalog without the excluded titles. */
  function Pool(questions: seq<Question>, excludeList: seq<string>): seq<Question> {
    if ExcludedTitles(excludeList).Ok? then Filter(questions, ExcludedTitles(excludeList).value) else []
  }

  /** The budget runs out exactly when every supplied attempt is thrown away. */
  lemma {:induction false} SearchExhausted(filtered: seq<Question>, cfg: Config, attempts: seq<seq<nat>>)
    requires forall j :: 0 <= j < |attempts| ==> cfg.questionsAmount <= |attempts[j]|
    ensures Search(filtered, cfg, attempts) == BudgetExhausted <==>
            forall j :: 0 <= j < |attempts| ==> Retried(cfg, RunAttempt(filtered, cfg, attempts[j]))
    decreases |attempts|
  {
    if attempts != [] {
      var rest := attempts[1..];
      SearchExhausted(filtered, cfg, rest);
      assert forall j :: 0 <= j < |rest| ==> rest[j] == attempts[j + 1];
      if forall j :: 0 <= j < |rest| ==> Retried(cfg, RunAttempt(filtered, cfg, rest[j])) {
        assert forall j :: 1 <= j < |attempts| ==> Retried(cfg, RunAttempt(filtered, cfg, attempts[j])) by {
          forall j | 1 <= j < |attempts|
            ensures Retried(cfg, RunAttempt(filtered, cfg, attempts[j]))
          {
            assert attempts[j] == rest[j - 1];
          }
        }
      }
    }
  }

  /** When every attempt before attempt j is thrown away and attempt j passes, attempt j's
      exam is the one returned. */
  lemma {:induction false} SearchFirstPassing(filtered: seq<Question>, cfg: Config,
                                              attempts: seq<seq<nat>>, j: nat)
    requires forall j :: 0 <= j < |attempts| ==> cfg.questionsAmount <= |attempts[j]|
    requires j < |attempts|
    requires forall l :: 0 <= l < j ==> Retried(cfg, RunAttempt(filtered, cfg, attempts[l]))
    requires RunAttempt(filtered, cfg, attempts[j]).Ok?
    requires Passes(cfg, RunAttempt(filtered, cfg, attempts[j]).value)
    ensures Search(filtered, cfg, attempts) == Generated(ExamOf(RunAttempt(filtered, cfg, attempts[j]).value))
    decreases j
  {
    if j > 0 {
      var rest := attempts[1..];
      assert Retried(cfg, RunAttempt(filtered, cfg, attempts[0]));
      forall l | 0 <= l < j - 1 ensures Retried(cfg, RunAttempt(filtered, cfg, rest[l])) {
        assert rest[l] == attempts[l + 1];
      }
      assert rest[j - 1] == attempts[j];
      SearchFirstPassing(filtered, cfg, rest, j - 1);
    }
  }

  /** generate_exam with its while-True loop cut to one attempt per supplied draw sequence. */
  method GenerateExam(questions: seq<Question>, cfg: Config, excludeList: seq<string>,
                      attempts: seq<seq<nat>>) returns (o: Outcome)
    requires forall j :: 0 <= j < |attempts| ==> cfg.questionsAmount <= |attempts[j]|
    ensures attempts != [] && questions == [] ==> o == Failed(CatalogExhausted)
    ensures attempts != [] && questions != [] && excludeList == [] ==> o.Failed? && o.error.Unexpected?
    ensures questions != [] && excludeList != [] ==> o == Search(Pool(questions, excludeList), cfg, attempts)
    ensures o.Failed? ==> (o.error == CatalogExhausted && questions == [])
                          || (o.error.Unexpected? && (excludeList == [] || !Scored(questions)))
    ensures o.NoQuestions? ==> cfg.questionsAmount == 0 && o.totalPoints == 0
    ensures attempts != [] && questions != [] && excludeList != [] && cfg.questionsAmount == 0 ==>
              o == NoQuestions(0)
    ensures o.Generated? ==> cfg.questionsAmount > 0 && ExcludedTitles(excludeList).Ok?
                             && ValidExam(questions, cfg, ExcludedTitles(excludeList).value, o.exam)
    ensures o == BudgetExhausted ==>
              forall j :: 0 <= j < |attempts| ==> Retried(cfg, RunAttempt(Pool(questions, excludeList), cfg, attempts[j]))
  {
    var j := 0;
    while j < |attempts|
      invariant 0 <= j <= |attempts|
      invariant j > 0 ==> questions != [] && excludeList != [] && cfg.questionsAmount != 0
      invariant Search(Pool(questions, excludeList), cfg, attempts[j..])
                == Search(Pool(questions, excludeList), cfg, attempts)
    {
      if questions == [] {
        return Failed(CatalogExhausted);
      }
      var excluded := ExcludedTitles(excludeList);
      if excluded.Err? {
        return Failed(excluded.error);
      }
      var filtered := Filter(questions, excluded.value);
      var r := FillPositions(filtered, cfg, attempts[j]);
      assert attempts[j..][1..] == attempts[j + 1..];
      if r.Err? {
        FilterScored(questions, excluded.value);
        return Failed(r.error);
      }
      var a := r.value;
      j := j + 1;
      if |a.exam| != cfg.questionsAmount {
        continue;
      }
      EmptyAttempt(filtered, cfg, a);
      if a.counts.Total() == 0 {
        return NoQuestions(a.totalPoints);
      }
      if a.totalPoints != cfg.points {
        continue;
      }
      if |a.titles| < cfg.minimumTitles {
        continue;
      }
      AttemptAccepted(questions, cfg, excluded.value, a);
      return Generated(ExamOf(a));
    }
    SearchExhausted(Pool(questions, excludeList), cfg, attempts);
    return BudgetExhausted;
  }

  /** A full attempt has no questions exactly when none were asked for; then it scored 0. */
  lemma EmptyAttempt(filtered: seq<Question>, cfg: Config, a: Attempt)
    requires Consistent(filtered, cfg, a) && |a.exam| == cfg.questionsAmount
    ensures a.counts.Total() == 0 <==> cfg.questionsAmount == 0
    ensures a.counts.Total() == 0 ==> a.totalPoints == 0
  {
    var ds := Difficulties(a.exam);
    assert forall k :: 0 <= k < |ds| ==> ds[k] in Levels by {
      forall k | 0 <= k < |ds| ensures ds[k] in Levels {
        assert a.exam[k] in a.exam;
      }
    }
    TallyTotal(ds);
  }

  /** An attempt that passes the count, points and title checks is a valid exam. */
  lemma AttemptAccepted(questions: seq<Question>, cfg: Config, excluded: seq<string>, a: Attempt)
    requires Consistent(Filter(questions, excluded), cfg, a)
    requires |a.exam| == cfg.questionsAmount && a.totalPoints == cfg.points
    requires |a.titles| >= cfg.minimumTitles
    ensures ValidExam(questions, cfg, excluded, Exam(a.exam, a.totalPoints, a.counts, a.titles))
  {
    assert multiset(a.exam) <= multiset(a.pool) + multiset(a.exam);
  }

  /** Every filtered question comes from the catalog, so a fully scored catalog filters to a
      fully scored pool. */
  lemma FilterScored(questions: seq<Question>, excluded: seq<string>)
    ensures Scored(questions) ==> Scored(Filter(questions, excluded))
  {
    forall q | q in Filter(questions, excluded) ensures q in questions {
      FilterMembers(questions, excluded, q);
    }
  }

  function Clamp(x: int, n: nat): nat {
    if x < 0 then 0 else if x > n then n else x
  }

  /** How many of the positions 0 .. n-1 target each difficulty: Hard below hard, Medium
      from there below hard+medium, Easy for the rest. */
  function Quota(cfg: Config, n: nat): Counts {
    var h := Clamp(cfg.hard, n);
    var upper := if Clamp(cfg.hard + cfg.medium, n) < h then h else Clamp(cfg.hard + cfg.medium, n);
    Counts(h, upper - h, n - upper)
  }

  lemma QuotaStep(cfg: Config, k: nat)
    ensures Quota(cfg, k + 1) == Quota(cfg, k).Plus(Target(k, cfg).Unit())
  {
  }

  lemma TargetsStep(cfg: Config, k: nat)
    ensures Tally(Targets(k + 1, cfg)) == Tally(Targets(k, cfg)).Plus(Target(k, cfg).Unit())
  {
    TallyAppend(Targets(k, cfg), Target(k, cfg).Name());
  }

  lemma {:induction false} TargetsTally(cfg: Config, k: nat)
    ensures Tally(Targets(k, cfg)) == Quota(cfg, k)
  {
    if k == 0 {
      assert Targets(k, cfg) == [];
    } else {
      TargetsTally(cfg, k - 1);
      TargetsStep(cfg, k - 1);
      QuotaStep(cfg, k - 1);
      assert Tally(Targets(k - 1, cfg)).Plus(Target(k - 1, cfg).Unit())
             == Quota(cfg, k - 1).Plus(Target(k - 1, cfg).Unit());
    }
  }

  /** The counts of an exam whose every position holds its target are the quota counts; with
      non-negative quotas that add up to questions_amount (read_config guarantees the sum) they
      are exactly hard, medium and easy. A returned exam is such an exam (ValidExam). */
  lemma ExamCounts(cfg: Config, exam: seq<Question>, counts: Counts)
    requires Difficulties(exam) == Targets(|exam|, cfg) && counts == Tally(Difficulties(exam))
    ensures counts == Quota(cfg, |exam|)
    ensures 0 <= cfg.hard && 0 <= cfg.medium && 0 <= cfg.easy
            && cfg.hard + cfg.medium + cfg.easy == |exam| ==>
            counts == Counts(cfg.hard, cfg.medium, cfg.easy)
  {
    TargetsTally(cfg, |exam|);
  }

  lemma {:induction false} DistinctCard<T>(s: seq<T>)
    requires Distinct(s)
    ensures |Elements(s)| == |s|
  {
    if s != [] {
      var init := s[..|s| - 1];
      var last := s[|s| - 1];
      assert s == init + [last];
      assert Distinct(init);
      assert last !in init;
      assert Elements(s) == Elements(init) + {last};
      DistinctCard(init);
    }
  }

  /** total_titles lists each title of the exam once, so the exam covers as many distinct
      titles as the list is long, and a returned exam at least minimum_titles. */
  lemma ExamTitles(exam: seq<Question>, titles: seq<string>)
    requires Distinct(titles) && Elements(titles) == TitlesOf(exam)
    ensures |TitlesOf(exam)| == |titles|
  {
    DistinctCard(titles);
  }

  /** No question of an exam drawn from the filtered pool has an excluded title, and each
      comes from the catalog. */
  lemma ExamExcludes(questions: seq<Question>, excluded: seq<string>, exam: seq<Question>)
    requires multiset(exam) <= multiset(Filter(questions, excluded))
    ensures forall q :: q in exam ==> q in questions && q.title !in excluded
  {
    forall q | q in exam ensures q in questions && q.title !in excluded {
      assert multiset(exam)[q] > 0;
      FilterMembers(questions, excluded, q);
    }
  }

  /** Stripping titles that are already stripped changes nothing. */
  lemma StripAllTrimmed(titles: seq<string>)
    requires forall t :: t in titles ==> Strip(t) == t
    ensures StripAll(titles) == titles
  {
    var r := StripAll(titles);
    forall k | 0 <= k < |r| ensures r[k] == titles[k] {
      assert titles[k] in titles;
    }
  }

  /** A stored exclusion string, titles joined by commas, is read back as those titles. */
  lemma StoredExclusions(titles: seq<string>)
    requires |titles| >= 1
    requires forall t :: t in titles ==> ',' !in t && Strip(t) == t
    ensures ExcludedTitles([Join(titles, ',')]) == Ok(titles)
  {
    var stored := Join(titles, ',');
    SplitJoin(titles, ',');
    assert Split(stored, ',') == titles;
    StripAllTrimmed(titles);
    assert [stored][0] == stored;
  }

  /** Only the first entry of the list is read: whatever the later entries hold, the excluded
      titles are those of the first entry alone. */
  lemma LaterEntriesIgnored(first: string, rest: seq<string>)
    ensures ExcludedTitles([first] + rest) == ExcludedTitles([first])
  {
    assert ([first] + rest)[0] == [first][0];
  }

  /** get_excluded_titles: the user's stored text split on commas and stripped, or no titles
      for a user without a record. */
  function UserExclusions(stored: Option<string>): seq<string> {
    match stored
    case None => []
    case Some(text) => StripAll(Split(text, ','))
  }

  /** exam_generator hands the already-split list of get_excluded_titles to generate_exam,
      which reads only its first entry: whatever a user's stored text, only its first
      comma-separated piece, stripped, is excluded, and a user without a record fails with
      code 520. */
  lemma OnlyFirstTitleExcluded(text: string)
    ensures ExcludedTitles(UserExclusions(Some(text))) == Ok([Strip(Split(text, ',')[0])])
    ensures ExcludedTitles(UserExclusions(None)) == Err(Unexpected(IndexOutOfRange))
  {
    var parts := Split(text, ',');
    var first := Strip(parts[0]);
    var titles := UserExclusions(Some(text));
    assert titles == [first] + titles[1..];
    LaterEntriesIgnored(first, titles[1..]);
    assert ',' !in first by {
      assert parts[0] in parts;
      if ',' in first { StripKeeps(parts[0], ','); }
    }
    StripIdempotent(parts[0]);
    StoredExclusions([first]);
  }

  /** A catalog loaded by ReadCsv is fully scored, so an attempt on it never fails. */
  lemma LoadedCatalogScored(rows: seq<Row>, questions: seq<Question>)
    requires |questions| < |rows|
    requires forall k :: 0 <= k < |questions| ==> ValidateRow(rows[k + 1], k + 2) == Ok(questions[k])
    ensures Scored(questions)
  {
    forall q | q in questions ensures ParseInt(q.score).Some? {
      var k :| 0 <= k < |questions| && questions[k] == q;
      assert ValidateRow(rows[k + 1], k + 2).Ok?;
    }
  }
}
