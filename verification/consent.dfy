/**
 Which points a composition asks consent at.  Rows speak in composition order and
 the last one to speak about a point decides.
 */
module Consent {
  import opened Lists
  import opened Wrappers

  datatype Key = Key(app: string, path: seq<string>, point: string)

  /** A declared row; `consent` is absent in rows that only run a script. */
  datatype Row = Row(app: string, path: seq<string>, at: seq<string>, consent: Option<bool>, declaredBy: string)

  datatype Statement = Statement(key: Key, value: bool, who: string)

  datatype ConsentPoint = ConsentPoint(key: Key, declaredBy: string)

  datatype Disarm = Disarm(key: Key, armedBy: string, disarmedBy: string)

  /** What one row says, point by point. */
  function Says(row: Row): seq<Statement> {
    if row.consent.None? then []
    else seq(|row.at|, i requires 0 <= i < |row.at| => Statement(Key(row.app, row.path, row.at[i]), row.consent.value,
        row.declaredBy))
  }

  function Statements(rows: seq<Row>): seq<Statement> {
    if rows == [] then [] else Statements(rows[..|rows| - 1]) + Says(rows[|rows| - 1])
  }

  // ------------------------------------------------------------- specification

  /** The latest statement about `k`. */
  function LastAbout(said: seq<Statement>, k: Key): (last: Option<nat>)
    ensures last.Some? ==> last.value < |said| && said[last.value].key == k
    ensures last.Some? ==> forall j :: last.value < j < |said| ==> said[j].key != k
    ensures last.None? ==> forall j :: 0 <= j < |said| ==> said[j].key != k
  {
    if said == [] then None
    else if said[|said| - 1].key == k then Some(|said| - 1)
    else LastAbout(said[..|said| - 1], k)
  }

  /** Statement `i` began the final run of equal answers about `k`. */
  ghost predicate BeginsFinalRun(said: seq<Statement>, k: Key, i: nat) {
    && i < |said| && said[i].key == k
    && (forall j :: i <= j < |said| && said[j].key == k ==> said[j].value == said[i].value)
    && (var previous := LastAbout(said[..i], k);
        previous.Some? ==> said[previous.value].value != said[i].value)
  }

  function RunStart(said: seq<Statement>, k: Key): (start: Option<nat>)
    ensures start.Some? ==> start.value < |said|
  {
    if said == [] then None
    else
      var before, last := said[..|said| - 1], said[|said| - 1];
      var start := RunStart(before, k);
      if last.key != k then start
      else if start.Some? && before[start.value].value == last.value then start
      else Some(|said| - 1)
  }

  /** The run that `RunStart` finds carries the latest answer. */
  lemma {:induction false} RunStartAnswers(said: seq<Statement>, k: Key)
    ensures RunStart(said, k).None? <==> LastAbout(said, k).None?
    ensures RunStart(said, k).Some? ==>
              var start, last := RunStart(said, k).value, LastAbout(said, k).value;
              start <= last && said[start].key == k && said[start].value == said[last].value
  {
    if said != [] {
      RunStartAnswers(said[..|said| - 1], k);
    }
  }

  /** `RunStart` finds the beginning of the final run, for every key spoken about. */
  lemma {:induction false} RunStartBegins(said: seq<Statement>, k: Key)
    ensures RunStart(said, k).Some? ==> BeginsFinalRun(said, k, RunStart(said, k).value)
  {
    if said != [] {
      var before, last := said[..|said| - 1], said[|said| - 1];
      RunStartBegins(before, k);
      RunStartAnswers(before, k);
      var start := RunStart(said, k);
      if start.Some? && start.value < |said| - 1 {
        assert before[..start.value] == said[..start.value];
      }
    }
  }

  lemma LaterIsNotFirst(said: seq<Statement>, k: Key, i: nat, j: nat)
    ensures BeginsFinalRun(said, k, i) && i < j ==> !BeginsFinalRun(said, k, j)
  {
    if BeginsFinalRun(said, k, i) && i < j < |said| {
      assert said[..j][i].key == k;
    }
  }

  /** Only one statement begins the final run. */
  lemma FinalRunIsUnique(said: seq<Statement>, k: Key, i: nat, j: nat)
    requires BeginsFinalRun(said, k, i) && BeginsFinalRun(said, k, j)
    ensures i == j
  {
    LaterIsNotFirst(said, k, i, j);
    LaterIsNotFirst(said, k, j, i);
  }

  function Keys(said: seq<Statement>): seq<Key> {
    seq(|said|, i requires 0 <= i < |said| => said[i].key)
  }

  function AnswersAbout(said: seq<Statement>, k: Key): seq<bool> {
    if said == [] then []
    else AnswersAbout(said[..|said| - 1], k) + (if said[|said| - 1].key == k then [said[|said| - 1].value] else [])
  }

  /** How often an answer turns from true to false. */
  function Falls(answers: seq<bool>): nat {
    if |answers| < 2 then 0
    else Falls(answers[..|answers| - 1]) + (if answers[|answers| - 2] && !answers[|answers| - 1] then 1 else 0)
  }

  function Warned(disarms: seq<Disarm>, k: Key): nat {
    if disarms == [] then 0
    else Warned(disarms[..|disarms| - 1], k) + (if disarms[|disarms| - 1].key == k then 1 else 0)
  }

  /** The points whose last answer is true, among `keys`, each with the beginner of its final run. */
  function Asked(said: seq<Statement>, keys: seq<Key>): seq<ConsentPoint> {
    if keys == [] then []
    else
      var k := keys[|keys| - 1];
      var start := RunStart(said, k);
      Asked(said, keys[..|keys| - 1]) +
      (if start.Some? && said[start.value].value then [ConsentPoint(k, said[start.value].who)] else [])
  }

  lemma {:induction false} AskedMembers(said: seq<Statement>, keys: seq<Key>, p: ConsentPoint)
    ensures p in Asked(said, keys) <==>
            p.key in keys &&
            exists i: nat :: BeginsFinalRun(said, p.key, i) && said[i].value && said[i].who == p.declaredBy
  {
    if keys != [] {
      var front, k := keys[..|keys| - 1], keys[|keys| - 1];
      AskedMembers(said, front, p);
      RunStartBegins(said, k);
      assert keys == front + [k];
      if p.key == k {
        RunStartAnswers(said, k);
        forall i: nat | BeginsFinalRun(said, k, i)
          ensures RunStart(said, k) == Some(i)
        {
          FinalRunIsUnique(said, k, i, RunStart(said, k).value);
        }
      }
    }
  }

  // ----------------------------------------------------------------- the fold

  datatype Decision = Decision(value: bool, who: string)

  ghost predicate Decides(said: seq<Statement>, order: seq<Key>, decided: map<Key, Decision>) {
    && order == Dedup(Keys(said))
    && forall k :: DecisionAt(said, k) == if k in decided then Some(decided[k]) else None
  }

  /** One disarm for each false answer over a true one, naming who began the true run and who ends it. */
  function Disarms(said: seq<Statement>): seq<Disarm> {
    if said == [] then []
    else
      var before, s := said[..|said| - 1], said[|said| - 1];
      var start := RunStart(before, s.key);
      if start.Some? && before[start.value].value && !s.value
      then Disarms(before) + [Disarm(s.key, before[start.value].who, s.who)]
      else Disarms(before)
  }

  lemma {:induction false} LastOfAnswers(said: seq<Statement>, k: Key)
    ensures AnswersAbout(said, k) == [] <==> RunStart(said, k).None?
    ensures RunStart(said, k).Some? ==>
              AnswersAbout(said, k) != [] && AnswersAbout(said, k)[|AnswersAbout(said, k)| - 1] ==
                  said[RunStart(said, k).value].value
  {
    if said != [] {
      LastOfAnswers(said[..|said| - 1], k);
    }
  }

  /** What the fold holds about `k` after `said`. */
  function DecisionAt(said: seq<Statement>, k: Key): Option<Decision> {
    var start := RunStart(said, k);
    if start.None? then None else Some(Decision(said[start.value].value, said[start.value].who))
  }

  /** An unchanged answer keeps the decision. */
  function Moved(was: Option<Decision>, value: bool, who: string): Option<Decision> {
    if was.Some? && was.value.value == value then was else Some(Decision(value, who))
  }

  lemma DecisionSnoc(said: seq<Statement>, s: Statement, k: Key)
    ensures
      var was := DecisionAt(said, k);
      DecisionAt(said + [s], k) ==
        if s.key != k then was else Moved(was, s.value, s.who)
  {
    assert (said + [s])[..|said|] == said;
  }

  lemma OrderSnoc(said: seq<Statement>, s: Statement)
    ensures Dedup(Keys(said + [s])) ==
            Dedup(Keys(said)) + (if DecisionAt(said, s.key).Some? then [] else [s.key])
  {
    assert Keys(said + [s]) == Keys(said) + [s.key];
    DedupSnoc(Keys(said), s.key);
    RunStartAnswers(said, s.key);
    if RunStart(said, s.key).Some? {
      assert Keys(said)[LastAbout(said, s.key).value] == s.key;
    } else {
      assert s.key !in Keys(said);
    }
  }

  lemma OneMoreStatement(said: seq<Statement>, s: Statement, order: seq<Key>, decided: map<Key, Decision>)
    requires Decides(said, order, decided)
    ensures
      var same := s.key in decided && decided[s.key].value == s.value;
      Decides(said + [s], if s.key in decided then order else order + [s.key],
              if same then decided else decided[s.key := Decision(s.value, s.who)])
  {
    OrderSnoc(said, s);
    assert order + [] == order;
    forall k
      ensures
        var was := DecisionAt(said, k);
        DecisionAt(said + [s], k) == if s.key != k then was else Moved(was, s.value, s.who)
    {
      DecisionSnoc(said, s, k);
    }
  }

  lemma DisarmsSnoc(said: seq<Statement>, s: Statement)
    ensures
      var start := RunStart(said, s.key);
      Disarms(said + [s]) ==
        if start.Some? && said[start.value].value && !s.value
        then Disarms(said) + [Disarm(s.key, said[start.value].who, s.who)] else Disarms(said)
  {
    assert (said + [s])[..|said|] == said;
  }

  lemma FallsSnoc(answers: seq<bool>, value: bool)
    ensures Falls(answers + [value]) ==
            Falls(answers) + (if answers != [] && answers[|answers| - 1] && !value then 1 else 0)
  {
    assert (answers + [value])[..|answers|] == answers;
  }

  lemma WarnedSnoc(disarms: seq<Disarm>, d: Disarm, k: Key)
    ensures Warned(disarms + [d], k) == Warned(disarms, k) + (if d.key == k then 1 else 0)
  {
    assert (disarms + [d])[..|disarms|] == disarms;
  }

  /** A key is warned about as often as its answers turn from true to false. */
  lemma {:induction false} WarnedOncePerFall(said: seq<Statement>, k: Key)
    ensures Warned(Disarms(said), k) == Falls(AnswersAbout(said, k))
  {
    if said != [] {
      var before, s := said[..|said| - 1], said[|said| - 1];
      WarnedOncePerFall(before, k);
      LastOfAnswers(before, k);
      var answers, start := AnswersAbout(before, k), RunStart(before, s.key);
      FallsSnoc(answers, s.value);
      assert answers + [] == answers;
      if start.Some? && before[start.value].value && !s.value {
        WarnedSnoc(Disarms(before), Disarm(s.key, before[start.value].who, s.who), k);
      }
    }
  }

  /** The state of the fold after `said`. */
  ghost predicate Heard(said: seq<Statement>, order: seq<Key>, decided: map<Key, Decision>, disarms: seq<Disarm>) {
    Decides(said, order, decided) && disarms == Disarms(said)
  }

  /** One more statement: a disarm is spoken of, an unchanged answer moves nothing. */
  method Hear(s: Statement, order: seq<Key>, decided: map<Key, Decision>, disarms: seq<Disarm>,
      ghost said: seq<Statement>)
      returns (order': seq<Key>, decided': map<Key, Decision>, disarms': seq<Disarm>)
    requires Heard(said, order, decided, disarms)
    ensures Heard(said + [s], order', decided', disarms')
  {
    order', decided', disarms' := order, decided, disarms;
    var previous := if s.key in decided then Some(decided[s.key]) else None;
    OneMoreStatement(said, s, order, decided);
    DisarmsSnoc(said, s);
    if previous.Some? && !s.value && previous.value.value {
      disarms' := disarms + [Disarm(s.key, previous.value.who, s.who)];
    }
    if !(previous.Some? && previous.value.value == s.value) {
      if previous.None? {
        order' := order + [s.key];
      }
      decided' := decided[s.key := Decision(s.value, s.who)];
    }
  }

  method AskTrue(order: seq<Key>, decided: map<Key, Decision>, ghost said: seq<Statement>)
      returns (points: seq<ConsentPoint>)
    requires Decides(said, order, decided)
    ensures points == Asked(said, order)
  {
    points := [];
    for i := 0 to |order|
      invariant points == Asked(said, order[..i])
    {
      assert order[..i + 1][..i] == order[..i];
      assert order[i] in Elems(order);
      assert order[i] in Keys(said);
      RunStartAnswers(said, order[i]);
      if decided[order[i]].value {
        points := points + [ConsentPoint(order[i], decided[order[i]].who)];
      } else {
        assert points + [] == points;
      }
    }
    assert order[..|order|] == order;
  }

  /** What one row says, statement by statement. */
  method HearRow(says: seq<Statement>, order: seq<Key>, decided: map<Key, Decision>, disarms: seq<Disarm>,
      ghost said: seq<Statement>)
      returns (order': seq<Key>, decided': map<Key, Decision>, disarms': seq<Disarm>)
    requires Heard(said, order, decided, disarms)
    ensures Heard(said + says, order', decided', disarms')
  {
    order', decided', disarms' := order, decided, disarms;
    assert said + says[..0] == said;
    for i := 0 to |says|
      invariant Heard(said + says[..i], order', decided', disarms')
    {
      assert says[..i + 1] == says[..i] + [says[i]];
      Assoc(said, says[..i], [says[i]]);
      order', decided', disarms' := Hear(says[i], order', decided', disarms', said + says[..i]);
    }
    assert says[..|says|] == says;
  }

  method ResolvedConsent(rows: seq<Row>) returns (points: seq<ConsentPoint>, disarms: seq<Disarm>)
    ensures points == Asked(Statements(rows), Dedup(Keys(Statements(rows))))
    ensures disarms == Disarms(Statements(rows))
  {
    var decided: map<Key, Decision> := map[];
    var order: seq<Key> := [];
    disarms := [];
    for r := 0 to |rows|
      invariant Heard(Statements(rows[..r]), order, decided, disarms)
    {
      assert rows[..r + 1][..r] == rows[..r];
      order, decided, disarms := HearRow(Says(rows[r]), order, decided, disarms, Statements(rows[..r]));
    }
    assert rows[..|rows|] == rows;
    points := AskTrue(order, decided, Statements(rows));
  }

  /** A point is asked exactly when the last answer about it is true. */
  lemma AskedIffLastIsTrue(said: seq<Statement>, k: Key)
    ensures (exists p :: p in Asked(said, Dedup(Keys(said))) && p.key == k)
            <==> LastAbout(said, k).Some? && said[LastAbout(said, k).value].value
  {
    var keys := Dedup(Keys(said));
    RunStartBegins(said, k);
    RunStartAnswers(said, k);
    forall p | p in Asked(said, keys) && p.key == k
      ensures LastAbout(said, k).Some? && said[LastAbout(said, k).value].value
    {
      AskedMembers(said, keys, p);
    }
    if LastAbout(said, k).Some? {
      var i := RunStart(said, k).value;
      assert Keys(said)[i] == k && k in Elems(keys);
      AskedMembers(said, keys, ConsentPoint(k, said[i].who));
    }
  }

  /** Points are asked in the order in which they were first declared, each once. */
  lemma {:induction false} AskedKeepsOrder(said: seq<Statement>, keys: seq<Key>, i: nat, j: nat)
    requires Distinct(keys) && i < j < |Asked(said, keys)|
    ensures Asked(said, keys)[i].key in keys && Asked(said, keys)[j].key in keys
    ensures IndexOf(keys, Asked(said, keys)[i].key) < IndexOf(keys, Asked(said, keys)[j].key)
  {
    var front, k := keys[..|keys| - 1], keys[|keys| - 1];
    var asked := Asked(said, keys);
    assert keys == front + [k];
    if j < |Asked(said, front)| {
      AskedKeepsOrder(said, front, i, j);
      IndexOfPrefix(front, [k], asked[j].key);
    } else {
      assert Asked(said, front)[i] in Asked(said, front);
      AskedMembers(said, front, asked[i]);
      IndexOfIsFirst(keys, k, |front|);
    }
    IndexOfPrefix(front, [k], asked[i].key);
  }

  // ------------------------------------------------------------------ row by row

  predicate Speaks(row: Row, k: Key) {
    row.consent.Some? && row.app == k.app && row.path == k.path && k.point in row.at
  }

  /** A row says its one answer, in its own name, at each of its points and nothing elsewhere. */
  lemma SaysExactly(row: Row, s: Statement)
    ensures s in Says(row) <==> Speaks(row, s.key) && row.consent == Some(s.value) && row.declaredBy == s.who
  {
    if Speaks(row, s.key) && row.consent == Some(s.value) && row.declaredBy == s.who {
      var i :| 0 <= i < |row.at| && row.at[i] == s.key.point;
      assert Says(row)[i] == s;
    }
  }

  lemma {:induction false} DecisionAfterSays(
    said: seq<Statement>, says: seq<Statement>, k: Key, value: bool, who: string)
    requires forall i :: 0 <= i < |says| ==> says[i].value == value && says[i].who == who
    ensures DecisionAt(said + says, k) ==
            if k in Keys(says) then Moved(DecisionAt(said, k), value, who) else DecisionAt(said, k)
  {
    if says == [] {
      assert said + says == said;
    } else {
      var front, last := says[..|says| - 1], says[|says| - 1];
      DecisionAfterSays(said, front, k, value, who);
      assert says == front + [last] && Keys(says) == Keys(front) + [last.key];
      Assoc(said, front, [last]);
      DecisionSnoc(said + front, last, k);
    }
  }

  lemma DecisionAfterRow(said: seq<Statement>, row: Row, k: Key)
    ensures
      var was := DecisionAt(said, k);
      DecisionAt(said + Says(row), k) == if Speaks(row, k) then Moved(was, row.consent.value, row.declaredBy) else was
  {
    if row.consent.Some? {
      DecisionAfterSays(said, Says(row), k, row.consent.value, row.declaredBy);
      forall i | 0 <= i < |row.at|
        ensures Keys(Says(row))[i] == Key(row.app, row.path, row.at[i])
      {
      }
      if Speaks(row, k) {
        var i :| 0 <= i < |row.at| && row.at[i] == k.point;
        assert Keys(Says(row))[i] == k;
      }
    } else {
      assert said + [] == said;
    }
  }

  /** Row `q` is the latest before `r` to speak about `k`. */
  ghost predicate LatestBefore(rows: seq<Row>, k: Key, q: int, r: int) {
    && 0 <= q < r <= |rows| && Speaks(rows[q], k)
    && forall m :: q < m < r ==> !Speaks(rows[m], k)
  }

  /** Row `r` began the final run of equal answers about `k`. */
  ghost predicate RowBegins(rows: seq<Row>, k: Key, r: int) {
    && 0 <= r < |rows| && Speaks(rows[r], k)
    && (forall m :: r < m < |rows| && Speaks(rows[m], k) ==> rows[m].consent == rows[r].consent)
    && (forall q :: LatestBefore(rows, k, q, r) ==> rows[q].consent != rows[r].consent)
  }

  lemma {:induction false} LatestExists(rows: seq<Row>, k: Key, r: nat) returns (q: int)
    requires r <= |rows|
    ensures if q < 0 then forall m :: 0 <= m < r ==> !Speaks(rows[m], k) else LatestBefore(rows, k, q, r)
  {
    q := r - 1;
    while q >= 0 && !Speaks(rows[q], k)
      invariant -1 <= q < r
      invariant forall m :: q < m < r ==> !Speaks(rows[m], k)
    {
      q := q - 1;
    }
  }

  ghost predicate Holds(rows: seq<Row>, k: Key, d: Decision, r: int) {
    RowBegins(rows, k, r) && rows[r].consent == Some(d.value) && rows[r].declaredBy == d.who
  }

  lemma HoldsAfterRow(rows: seq<Row>, row: Row, k: Key, d: Decision, r: int)
    requires Holds(rows, k, d, r)
    ensures !Speaks(row, k) || row.consent == Some(d.value) ==> Holds(rows + [row], k, d, r)
    ensures Speaks(row, k) && row.consent != Some(d.value) ==>
              Holds(rows + [row], k, Decision(row.consent.value, row.declaredBy), |rows|)
  {
    var all := rows + [row];
    assert forall m :: 0 <= m < |rows| ==> all[m] == rows[m];
    forall q | LatestBefore(all, k, q, r)
      ensures LatestBefore(rows, k, q, r)
    {
    }
    if Speaks(row, k) {
      forall q | LatestBefore(all, k, q, |rows|)
        ensures all[q].consent == rows[r].consent
      {
        assert q >= r;
      }
    }
  }

  /** Whatever is decided after some rows, one of the rows began it. */
  lemma {:induction false} RowDecides(rows: seq<Row>, k: Key) returns (r: int)
    ensures match DecisionAt(Statements(rows), k)
            case None => r < 0 && forall m :: 0 <= m < |rows| ==> !Speaks(rows[m], k)
            case Some(d) => Holds(rows, k, d, r)
  {
    r := -1;
    if rows != [] {
      var front, row := rows[..|rows| - 1], rows[|rows| - 1];
      r := RowDecides(front, k);
      assert rows == front + [row];
      DecisionAfterRow(Statements(front), row, k);
      var was := DecisionAt(Statements(front), k);
      if was.Some? {
        HoldsAfterRow(front, row, k, was.value, r);
      }
      if Speaks(row, k) && (was.None? || Some(was.value.value) != row.consent) {
        r := |front|;
      }
    }
  }

  lemma RowBeginsOnce(rows: seq<Row>, k: Key, r: int, later: int)
    ensures RowBegins(rows, k, r) && r < later ==> !RowBegins(rows, k, later)
  {
    if RowBegins(rows, k, r) && r < later < |rows| {
      var q := LatestExists(rows, k, later);
      assert q >= r;
    }
  }

  lemma DecidedByRows(rows: seq<Row>, k: Key, d: Decision)
    ensures DecisionAt(Statements(rows), k) == Some(d) <==> exists r :: Holds(rows, k, d, r)
  {
    var r := RowDecides(rows, k);
    forall other | RowBegins(rows, k, other)
      ensures other == r
    {
      RowBeginsOnce(rows, k, r, other);
      RowBeginsOnce(rows, k, other, r);
    }
  }

  lemma AskedIsDecided(said: seq<Statement>, p: ConsentPoint)
    ensures p in Asked(said, Dedup(Keys(said))) <==>
            DecisionAt(said, p.key) == Some(Decision(true, p.declaredBy))
  {
    var k := p.key;
    AskedMembers(said, Dedup(Keys(said)), p);
    RunStartBegins(said, k);
    RunStartAnswers(said, k);
    if RunStart(said, k).Some? {
      assert Keys(said)[RunStart(said, k).value] == k;
      assert k in Elems(Keys(said));
    }
    forall i: nat | BeginsFinalRun(said, k, i)
      ensures RunStart(said, k) == Some(i)
    {
      FinalRunIsUnique(said, k, i, RunStart(said, k).value);
    }
  }

  /**
   Row by row: a point is asked, in a declarer's name, exactly when a row of that declarer began
   the final run of answers about it and that row asks.
   */
  lemma AskedByRows(rows: seq<Row>, p: ConsentPoint)
    ensures p in Asked(Statements(rows), Dedup(Keys(Statements(rows)))) <==>
            exists r :: RowBegins(rows, p.key, r) && rows[r].consent == Some(true) && rows[r].declaredBy == p.declaredBy
  {
    AskedIsDecided(Statements(rows), p);
    DecidedByRows(rows, p.key, Decision(true, p.declaredBy));
    assert forall r :: Holds(rows, p.key, Decision(true, p.declaredBy), r) <==>
      RowBegins(rows, p.key, r) && rows[r].consent == Some(true) && rows[r].declaredBy == p.declaredBy;
  }

  /** Statement `i` turns down what the run begun by statement `j` had asked. */
  ghost predicate TurnsDown(said: seq<Statement>, j: int, i: int) {
    && 0 <= j < i < |said| && !said[i].value && said[j].value
    && BeginsFinalRun(said[..i], said[i].key, j)
  }

  lemma TurnsDownEarlier(said: seq<Statement>, j: int, i: int)
    requires said != [] && i < |said| - 1
    ensures TurnsDown(said, j, i) <==> TurnsDown(said[..|said| - 1], j, i)
  {
    if 0 <= i {
      assert said[..|said| - 1][..i] == said[..i];
    }
  }

  /** The warnings are exactly the statements that turn down a true run, each naming both declarers. */
  lemma {:induction false} DisarmsExactly(said: seq<Statement>, d: Disarm)
    ensures d in Disarms(said) <==>
            exists j, i :: TurnsDown(said, j, i) && d == Disarm(said[i].key, said[j].who, said[i].who)
  {
    if said != [] {
      var n := |said| - 1;
      var before, s := said[..n], said[n];
      DisarmsExactly(before, d);
      RunStartBegins(before, s.key);
      RunStartAnswers(before, s.key);
      forall j, i | i < n
        ensures TurnsDown(said, j, i) <==> TurnsDown(before, j, i)
      {
        TurnsDownEarlier(said, j, i);
      }
      forall j | TurnsDown(said, j, n)
        ensures RunStart(before, s.key) == Some(j)
      {
        FinalRunIsUnique(before, s.key, j, RunStart(before, s.key).value);
      }
    }
  }
}
