/**
 * The trigger installer script: it cuts a MySQL script into statements
 * (aware of `DELIMITER $$` blocks), runs only the trigger statements, and
 * its fallback triggers refuse watchlist rows asking for more seats than
 * the movie has.
 */
module TriggerScript {
  import opened Wrappers
  import opened Text
  import opened Database

  /** The splitter's loop variables: sql_statements, current_statement, in_delimiter_block. */
  datatype SplitState = SplitState(statements: seq<string>, current: seq<string>, inBlock: bool)

  const Start := SplitState([], [], false)

  predicate IsDelimiterLine(line: string) {
    StartsWith(Strip(line), "DELIMITER")
  }

  predicate IsBlockEnd(line: string) {
    Strip(line) == "$$"
  }

  /** Outside a block: a non-empty line that is not a comment and not USE. */
  predicate IsPlainStatementLine(line: string) {
    var t := Strip(line);
    t != "" && !StartsWith(t, "--") && !StartsWith(t, "USE")
  }

  /** The statement a plain line gives: its stripped text less one trailing ';'. */
  function PlainStatement(line: string): (r: string)
    ensures EndsWith(Strip(line), ";") ==> r + ";" == Strip(line)
    ensures !EndsWith(Strip(line), ";") ==> r == Strip(line)
  {
    var t := Strip(line);
    if EndsWith(t, ";") then t[..|t| - 1] else t
  }

  /** One iteration of the splitting loop. */
  function Step(st: SplitState, line: string): (r: SplitState)
    ensures st.statements <= r.statements && |r.statements| <= |st.statements| + 1
    ensures |r.current| <= |st.current| + 1
  {
    if IsDelimiterLine(line) then st.(inBlock := Contains(Strip(line), "$$"))
    else if st.inBlock then
      if IsBlockEnd(line) then
        if st.current != [] then SplitState(st.statements + [Join(st.current, "\n")], [], true)
        else st
      else st.(current := st.current + [line])
    else if IsPlainStatementLine(line) then st.(statements := st.statements + [PlainStatement(line)])
    else st
  }

  /** The loop state after the given lines. */
  function Run(lines: seq<string>): (r: SplitState)
    ensures |r.statements| <= |lines| && |r.current| <= |lines|
  {
    if lines == [] then Start else Step(Run(lines[..|lines| - 1]), lines[|lines| - 1])
  }

  /** The splitting loop over the lines of the script (sql_file.split('\n')). */
  method SplitStatements(lines: seq<string>) returns (statements: seq<string>)
    ensures statements == Run(lines).statements
  {
    statements := [];
    var current: seq<string> := [];
    var inBlock := false;
    for i := 0 to |lines|
      invariant Run(lines[..i]) == SplitState(statements, current, inBlock)
    {
      var line := lines[i];
      var stripped := Strip(line);
      assert lines[..i + 1][..i] == lines[..i];
      if StartsWith(stripped, "DELIMITER") {
        inBlock := Contains(stripped, "$$");
        continue;
      }
      if inBlock {
        if stripped == "$$" {
          if current != [] {
            statements := statements + [Join(current, "\n")];
            current := [];
          }
          continue;
        }
        current := current + [line];
      } else {
        if stripped != "" && !StartsWith(stripped, "--") && !StartsWith(stripped, "USE") {
          if EndsWith(stripped, ";") {
            statements := statements + [stripped[..|stripped| - 1]];
          } else {
            statements := statements + [stripped];
          }
        }
      }
    }
    assert lines[..|lines|] == lines;
  }

  lemma RunAppend(lines: seq<string>, line: string)
    ensures Run(lines + [line]) == Step(Run(lines), line)
  {
    assert (lines + [line])[..|lines|] == lines;
  }

  /** Prefixes compose. */
  lemma PrefixTransitive(p: seq<string>, q: seq<string>, r: seq<string>)
    requires p <= q && q <= r
    ensures p <= r
  {
    assert p == q[..|p|] && q == r[..|q|];
    assert r[..|q|][..|p|] == r[..|p|];
  }

  /** The statements after the first n lines are a prefix of those after all of them. */
  lemma {:induction false} RunPrefix(lines: seq<string>, n: nat)
    requires n <= |lines|
    ensures Run(lines[..n]).statements <= Run(lines).statements
    decreases |lines|
  {
    if n == |lines| {
      assert lines[..n] == lines;
    } else {
      var init := lines[..|lines| - 1];
      RunPrefix(init, n);
      assert init[..n] == lines[..n];
      var st := Run(init);
      assert Run(lines) == Step(st, lines[|lines| - 1]);
      PrefixTransitive(Run(lines[..n]).statements, st.statements, Run(lines).statements);
    }
  }

  /** Statements come out in source order: later lines only add statements at the end. */
  lemma RunExtends(a: seq<string>, b: seq<string>)
    ensures Run(a).statements <= Run(a + b).statements
  {
    RunPrefix(a + b, |a|);
    assert (a + b)[..|a|] == a;
  }

  /**
   * Outside a block, a line that is not a DELIMITER line emits exactly its
   * plain statement when it is one, and nothing otherwise; the mode and the
   * accumulator stay as they were.
   */
  lemma {:induction false} PlainLineOutsideBlock(a: seq<string>, line: string)
    requires !Run(a).inBlock && !IsDelimiterLine(line)
    ensures Run(a + [line]).statements
              == Run(a).statements + (if IsPlainStatementLine(line) then [PlainStatement(line)] else [])
    ensures Run(a + [line]).current == Run(a).current && !Run(a + [line]).inBlock
  {
    RunAppend(a, line);
  }

  /** A DELIMITER line emits nothing and only switches block mode, on iff it holds "$$". */
  lemma DelimiterLineSwitchesMode(lines: seq<string>, line: string)
    requires IsDelimiterLine(line)
    ensures Run(lines + [line]).statements == Run(lines).statements
    ensures Run(lines + [line]).current == Run(lines).current
    ensures Run(lines + [line]).inBlock <==> Contains(Strip(line), "$$")
  {
    RunAppend(lines, line);
  }

  /**
   * Inside a block, lines that neither end the block nor are DELIMITER lines
   * are collected untrimmed and emit nothing: an unclosed block is never emitted.
   */
  lemma {:induction false} BlockAccumulates(a: seq<string>, b: seq<string>)
    requires Run(a).inBlock
    requires forall k :: 0 <= k < |b| ==> !IsDelimiterLine(b[k]) && !IsBlockEnd(b[k])
    ensures Run(a + b) == SplitState(Run(a).statements, Run(a).current + b, true)
    decreases |b|
  {
    if b == [] {
      assert a + b == a;
    } else {
      var b', last := b[..|b| - 1], b[|b| - 1];
      BlockAccumulates(a, b');
      assert a + b == (a + b') + [last];
      RunAppend(a + b', last);
      StepInBlock(Run(a + b'), last);
      assert Run(a).current + b' + [last] == Run(a).current + b;
    }
  }

  /** Inside a block, a line that neither ends the block nor is a DELIMITER line is collected. */
  lemma StepInBlock(st: SplitState, line: string)
    requires st.inBlock && !IsDelimiterLine(line) && !IsBlockEnd(line)
    ensures Step(st, line) == st.(current := st.current + [line])
  {
  }

  /** A "$$" line flushes the collected lines as one '\n'-joined statement; with none, nothing. */
  lemma BlockEndFlushes(lines: seq<string>, line: string)
    requires Run(lines).inBlock && IsBlockEnd(line)
    ensures Run(lines).current != [] ==>
              Run(lines + [line]) == SplitState(Run(lines).statements + [Join(Run(lines).current, "\n")], [], true)
    ensures Run(lines).current == [] ==> Run(lines + [line]) == Run(lines)
  {
    RunAppend(lines, line);
    assert !StartsWith("$$", "DELIMITER");
  }

  /**
   * A whole block: `DELIMITER $$`, a body, `$$` yields exactly one statement,
   * the body joined with '\n'.
   */
  lemma WholeBlock(a: seq<string>, open: string, body: seq<string>, close: string)
    requires Run(a).current == []
    requires IsDelimiterLine(open) && Contains(Strip(open), "$$")
    requires body != [] && forall k :: 0 <= k < |body| ==> !IsDelimiterLine(body[k]) && !IsBlockEnd(body[k])
    requires IsBlockEnd(close)
    ensures Run(a + [open] + body + [close]).statements == Run(a).statements + [Join(body, "\n")]
    ensures Run(a + [open] + body + [close]).inBlock
  {
    var a1 := a + [open];
    DelimiterLineSwitchesMode(a, open);
    var a2 := a1 + body;
    BlockAccumulates(a1, body);
    assert Run(a2).current == body;
    BlockEndFlushes(a2, close);
    assert a + [open] + body + [close] == a2 + [close];
  }

  /** Reference definition for a script without DELIMITER lines: filter, then map. */
  function PlainStatements(lines: seq<string>): seq<string> {
    if lines == [] then []
    else
      var last := lines[|lines| - 1];
      PlainStatements(lines[..|lines| - 1]) + (if IsPlainStatementLine(last) then [PlainStatement(last)] else [])
  }

  /**
   * Without DELIMITER lines the splitter never enters block mode, and each
   * plain line becomes exactly one statement, in order.
   */
  lemma {:induction false} NoBlocksMeansOnePerLine(lines: seq<string>)
    requires forall k :: 0 <= k < |lines| ==> !IsDelimiterLine(lines[k])
    ensures Run(lines) == SplitState(PlainStatements(lines), [], false)
    decreases |lines|
  {
    if lines != [] {
      NoBlocksMeansOnePerLine(lines[..|lines| - 1]);
    }
  }

  /** What the execution loop does with one statement. */
  datatype Action = CreateTrigger | DropTrigger | ShowTriggers | Skip

  /** The execution loop's tests for one statement, in their order. */
  function Classify(statement: string): (a: Action)
    ensures a != Skip ==> Strip(statement) != "" && !StartsWith(Strip(statement), "--")
    ensures a == CreateTrigger <==> a != Skip && Contains(Upper(statement), "CREATE TRIGGER")
    ensures a == DropTrigger ==> Contains(Upper(statement), "DROP TRIGGER") && !Contains(Upper(statement), "CREATE TRIGGER")
    ensures a == ShowTriggers ==> Contains(Upper(statement), "SHOW TRIGGERS")
                                  && !Contains(Upper(statement), "CREATE TRIGGER") && !Contains(Upper(statement), "DROP TRIGGER")
    ensures a == Skip && Strip(statement) != "" && !StartsWith(Strip(statement), "--") ==>
              !Contains(Upper(statement), "CREATE TRIGGER") && !Contains(Upper(statement), "DROP TRIGGER")
              && !Contains(Upper(statement), "SHOW TRIGGERS")
  {
    var t := Strip(statement);
    if t == "" || StartsWith(t, "--") then Skip
    else
      var u := Upper(statement);
      if Contains(u, "CREATE TRIGGER") then CreateTrigger
      else if Contains(u, "DROP TRIGGER") then DropTrigger
      else if Contains(u, "SHOW TRIGGERS") then ShowTriggers
      else Skip
  }

  /** One cursor.execute call: the statement's index, text and kind. */
  datatype Executed = Executed(index: nat, statement: string, action: Action)

  /** The statements the loop hands to the database, in order. */
  function Executions(statements: seq<string>): (r: seq<Executed>)
    ensures |r| <= |statements|
    ensures forall k :: 0 <= k < |r| ==>
              r[k].index < |statements| && r[k].statement == statements[r[k].index]
              && r[k].action == Classify(r[k].statement) && r[k].action != Skip
    ensures forall k, l :: 0 <= k < l < |r| ==> r[k].index < r[l].index
  {
    if statements == [] then []
    else
      var n := |statements| - 1;
      var r := Executions(statements[..n]);
      assert forall k :: 0 <= k < |r| ==> statements[..n][r[k].index] == statements[r[k].index];
      if Classify(statements[n]) != Skip then
        var e := Executed(n, statements[n], Classify(statements[n]));
        assert forall k :: 0 <= k < |r| ==> (r + [e])[k] == r[k];
        r + [e]
      else r
  }

  /** Every trigger statement is executed. */
  lemma {:induction false} TriggerStatementsExecuted(statements: seq<string>, i: nat)
    requires i < |statements| && Classify(statements[i]) != Skip
    ensures exists k :: 0 <= k < |Executions(statements)| && Executions(statements)[k].index == i
    decreases |statements|
  {
    var n := |statements| - 1;
    if i < n {
      TriggerStatementsExecuted(statements[..n], i);
      var k :| 0 <= k < |Executions(statements[..n])| && Executions(statements[..n])[k].index == i;
      assert Executions(statements)[k] == Executions(statements[..n])[k];
    } else {
      assert Executions(statements)[|Executions(statements)| - 1].index == i;
    }
  }

  /** The execution loop (lines 50-66), with cursor.execute recorded as a log. */
  method ExecuteStatements(statements: seq<string>) returns (log: seq<Executed>)
    ensures log == Executions(statements)
  {
    log := [];
    for i := 0 to |statements|
      invariant log == Executions(statements[..i])
    {
      var statement := statements[i];
      assert statements[..i + 1][..i] == statements[..i];
      var action := Classify(statement);
      if action != Skip {
        log := log + [Executed(i, statement, action)];
      }
    }
    assert statements[..|statements|] == statements;
  }

  /**
   * The fallback triggers on watchlist INSERT and UPDATE: available_count is
   * the movie's available_seats (NULL when the movie is missing or the column
   * is NULL); the row is refused iff seats_selected > available_count, and a
   * comparison with NULL never refuses.
   */
  function AvailableCount(movies: seq<Movie>, movieId: int): (r: Option<int>)
    ensures r.Some? ==> exists i :: 0 <= i < |movies| && movies[i].movieId == movieId && movies[i].availableSeats == r
  {
    if movies == [] then None
    else if movies[|movies| - 1].movieId == movieId then movies[|movies| - 1].availableSeats
    else AvailableCount(movies[..|movies| - 1], movieId)
  }

  /** NEW.seats_selected > available_count for the row's NEW.movie_id. */
  predicate SeatTriggerRejects(movies: seq<Movie>, movieId: int, seatsSelected: int) {
    var available := AvailableCount(movies, movieId);
    available.Some? && seatsSelected > available.value
  }

  /** A refused row always asks for more seats than its movie has. */
  lemma TriggerRejectsOnlyOverCapacity(movies: seq<Movie>, movieId: int, seatsSelected: int)
    requires SeatTriggerRejects(movies, movieId, seatsSelected)
    ensures exists i :: 0 <= i < |movies| && movies[i].movieId == movieId
                        && movies[i].availableSeats.Some? && seatsSelected > movies[i].availableSeats.value
  {
  }

  /** With unique movie ids, the triggers read that movie's own available_seats. */
  lemma {:induction false} TriggerReadsTheMovie(movies: seq<Movie>, i: nat, seatsSelected: int)
    requires UniqueMovieIds(movies) && i < |movies|
    ensures AvailableCount(movies, movies[i].movieId) == movies[i].availableSeats
    ensures SeatTriggerRejects(movies, movies[i].movieId, seatsSelected) <==>
              movies[i].availableSeats.Some? && seatsSelected > movies[i].availableSeats.value
    decreases |movies|
  {
    var n := |movies| - 1;
    if i < n {
      assert movies[n].movieId != movies[i].movieId;
      assert UniqueMovieIds(movies[..n]) by {
        forall a, b | 0 <= a < b < n ensures movies[..n][a].movieId != movies[..n][b].movieId {
          assert movies[..n][a] == movies[a] && movies[..n][b] == movies[b];
        }
      }
      TriggerReadsTheMovie(movies[..n], i, seatsSelected);
      assert movies[..n][i] == movies[i];
    }
  }

  /** A watchlist row for a movie that is not in the table passes the triggers. */
  lemma UnknownMovieNotGuarded(movies: seq<Movie>, movieId: int, seatsSelected: int)
    requires forall i :: 0 <= i < |movies| ==> movies[i].movieId != movieId
    ensures !SeatTriggerRejects(movies, movieId, seatsSelected)
  {
  }
}
