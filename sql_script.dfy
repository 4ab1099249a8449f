/** read_statement and run_file of database.py: splitting a SQL script into statements.
    The script is given as the lines a Python text file yields, each ending in '\n' except
    possibly the last. Executing a statement is recording it. */
module SqlScript {

  /** The ASCII characters Python's str.strip() removes. */
  predicate IsSpace(c: char) {
    c == ' ' || ('\t' <= c <= '\r') || ('\U{1C}' <= c <= '\U{1F}')
  }

  /** How many whitespace characters `s` starts with. */
  function LeadingSpace(s: string): (n: nat)
    ensures n <= |s| && (n < |s| ==> !IsSpace(s[n]))
  {
    if s != "" && IsSpace(s[0]) then 1 + LeadingSpace(s[1..]) else 0
  }

  /** Where the whitespace `s` ends with begins. */
  function TrailingSpace(s: string): (n: nat)
    ensures n <= |s| && (n > 0 ==> !IsSpace(s[n - 1]))
  {
    if s != "" && IsSpace(s[|s| - 1]) then TrailingSpace(s[..|s| - 1]) else |s|
  }

  /** str.strip(): the text between the leading and the trailing whitespace. */
  function Strip(s: string): (r: string)
    ensures r != "" ==> !IsSpace(r[0]) && !IsSpace(r[|r| - 1])
  {
    var e := TrailingSpace(s);
    s[..e][LeadingSpace(s[..e])..]
  }

  lemma {:induction false} LeadingAllSpace(s: string)
    ensures forall k :: 0 <= k < LeadingSpace(s) ==> IsSpace(s[k])
  {
    if s != "" && IsSpace(s[0]) {
      LeadingAllSpace(s[1..]);
    }
  }

  lemma {:induction false} TrailingAllSpace(s: string)
    ensures forall k :: TrailingSpace(s) <= k < |s| ==> IsSpace(s[k])
  {
    if s != "" && IsSpace(s[|s| - 1]) {
      TrailingAllSpace(s[..|s| - 1]);
    }
  }

  /** strip() keeps one contiguous slice and removes only whitespace, from both ends. */
  lemma StripSpec(s: string)
    ensures var e := TrailingSpace(s); var b := LeadingSpace(s[..e]);
      b <= e && Strip(s) == s[b..e]
      && (forall k :: 0 <= k < b ==> IsSpace(s[k]))
      && (forall k :: e <= k < |s| ==> IsSpace(s[k]))
  {
    var e := TrailingSpace(s);
    var t := s[..e];
    TrailingAllSpace(s);
    LeadingAllSpace(t);
    assert forall k :: 0 <= k < LeadingSpace(t) ==> t[k] == s[k];
    assert t[LeadingSpace(t)..] == s[LeadingSpace(t)..e];
  }

  /** str.find('#'): the first position of '#', or -1. */
  function FindHash(line: string): (idx: int)
    ensures idx == -1 ==> '#' !in line
    ensures idx != -1 ==> 0 <= idx < |line| && line[idx] == '#' && '#' !in line[..idx]
  {
    if line == "" then -1
    else if line[0] == '#' then 0
    else
      var k := FindHash(line[1..]);
      if k == -1 then -1
      else
        assert line[..k + 1] == [line[0]] + line[1..][..k];
        k + 1
  }

  /** `line[0:idx]` with idx = line.find('#'). With no '#' the slice is line[0:-1], which
      drops the line's last character: the '\n', or a real character on a last line that has
      no '\n'. */
  function CutComment(line: string): (r: string)
    ensures '#' !in r
  {
    var idx := FindHash(line);
    if idx >= 0 then line[..idx] else if line == "" then "" else line[..|line| - 1]
  }

  /** What a line contributes: its text before any '#', stripped. */
  function Clean(line: string): (r: string)
    ensures '#' !in r
  {
    Strip(CutComment(line))
  }

  /** Each line's contribution, in order. */
  function Cleaned(lines: seq<string>): (cs: seq<string>)
    ensures |cs| == |lines|
  {
    if lines == [] then [] else [Clean(lines[0])] + Cleaned(lines[1..])
  }

  lemma {:induction false} CleanedAt(lines: seq<string>, i: nat)
    requires i < |lines|
    ensures Cleaned(lines)[i] == Clean(lines[i])
  {
    if i > 0 {
      CleanedAt(lines[1..], i - 1);
    }
  }

  /** Each contribution is its line's. */
  lemma CleanedAll(lines: seq<string>)
    ensures forall k :: 0 <= k < |lines| ==> Cleaned(lines)[k] == Clean(lines[k])
  {
    forall k | 0 <= k < |lines|
      ensures Cleaned(lines)[k] == Clean(lines[k])
    {
      CleanedAt(lines, k);
    }
  }

  lemma {:induction false} CleanedPrefix(lines: seq<string>, n: nat)
    requires n <= |lines|
    ensures Cleaned(lines[..n]) == Cleaned(lines)[..n]
  {
    if n > 0 {
      assert lines[..n][1..] == lines[1..][..n - 1];
      CleanedPrefix(lines[1..], n - 1);
    }
  }

  lemma {:induction false} CleanedSuffix(lines: seq<string>, n: nat)
    requires n <= |lines|
    ensures Cleaned(lines[n..]) == Cleaned(lines)[n..]
  {
    if n > 0 {
      assert lines[n..] == lines[1..][n - 1..];
      CleanedSuffix(lines[1..], n - 1);
    }
  }

  /** A contribution that ends a statement: non-empty and ending in ';'. */
  predicate Terminates(c: string) {
    c != "" && c[|c| - 1] == ';'
  }

  /** A non-empty contribution is appended after one space. */
  function Piece(c: string): string {
    if c == "" then "" else " " + c
  }

  /** The text accumulated from the contributions `cs`, in order. */
  function Joined(cs: seq<string>): string {
    if cs == [] then "" else Piece(cs[0]) + Joined(cs[1..])
  }

  /** Accumulating over a concatenation accumulates over each part. */
  lemma {:induction false} JoinedAppend(a: seq<string>, b: seq<string>)
    ensures Joined(a + b) == Joined(a) + Joined(b)
  {
    if a == [] {
      assert a + b == b;
    } else {
      assert (a + b)[1..] == a[1..] + b;
      JoinedAppend(a[1..], b);
    }
  }

  /** One more line appends its piece. */
  lemma JoinedStep(cs: seq<string>, i: nat)
    requires i < |cs|
    ensures Joined(cs[..i + 1]) == Joined(cs[..i]) + Piece(cs[i])
  {
    assert cs[..i + 1] == cs[..i] + [cs[i]];
    JoinedAppend(cs[..i], [cs[i]]);
    assert Joined([cs[i]]) == Piece(cs[i]) + Joined([]);
  }

  /** A terminating contribution makes the accumulated text terminate. */
  lemma PieceTerminates(a: string, c: string)
    requires Terminates(c)
    ensures Terminates(a + Piece(c))
  {
    assert (a + Piece(c))[|a + Piece(c)| - 1] == c[|c| - 1];
  }

  /** Text accumulated up to a terminating contribution terminates. */
  lemma JoinedTerminates(cs: seq<string>, i: nat)
    requires 0 < i <= |cs| && Terminates(cs[i - 1])
    ensures Terminates(Joined(cs[..i]))
  {
    JoinedStep(cs, i - 1);
    PieceTerminates(Joined(cs[..i - 1]), cs[i - 1]);
  }

  /** No comment text reaches a statement. */
  lemma {:induction false} JoinedNoHash(lines: seq<string>)
    ensures '#' !in Joined(Cleaned(lines))
  {
    if lines != [] {
      JoinedNoHash(lines[1..]);
      assert [Clean(lines[0])] + Cleaned(lines[1..]) == Cleaned(lines);
      assert Cleaned(lines)[1..] == Cleaned(lines[1..]);
    }
  }

  /** How many lines read_statement consumes: up to and including the first one whose
      contribution ends a statement, or all of them. */
  function StatementEnd(cs: seq<string>): (n: nat)
    ensures n <= |cs| && (n == 0 <==> cs == [])
    ensures n < |cs| ==> Terminates(cs[n - 1])
  {
    if cs == [] then 0
    else if Terminates(cs[0]) then 1
    else 1 + StatementEnd(cs[1..])
  }

  /** The first terminating contribution determines StatementEnd. */
  lemma {:induction false} StatementEndAt(cs: seq<string>, n: nat)
    requires 0 < n <= |cs|
    requires forall k :: 0 <= k < n - 1 ==> !Terminates(cs[k])
    requires n < |cs| ==> Terminates(cs[n - 1])
    ensures StatementEnd(cs) == n
  {
    if n > 1 {
      StatementEndAt(cs[1..], n - 1);
    }
  }

  /** The accumulated text is empty exactly when every contribution is. */
  lemma {:induction false} JoinedEmpty(cs: seq<string>)
    ensures Joined(cs) == "" <==> forall k :: 0 <= k < |cs| ==> cs[k] == ""
  {
    if cs != [] {
      JoinedEmpty(cs[1..]);
      assert forall k :: 1 <= k < |cs| ==> cs[1..][k - 1] == cs[k];
    }
  }

  /** Only the last line a statement consumes can end it. */
  lemma {:induction false} StatementEndFirst(cs: seq<string>, k: nat)
    requires k < StatementEnd(cs) - 1
    ensures !Terminates(cs[k])
  {
    if k > 0 {
      StatementEndFirst(cs[1..], k - 1);
    }
  }

  /** What read_statement returns after consuming StatementEnd lines: a statement ending in
      ';' unless the script ran out, and an empty one only when nothing was left. */
  lemma ReadStops(cs: seq<string>)
    ensures StatementEnd(cs) < |cs| ==> Terminates(Joined(cs[..StatementEnd(cs)]))
    ensures Joined(cs[..StatementEnd(cs)]) == "" <==> StatementEnd(cs) == |cs| && forall k :: 0 <= k < |cs| ==> cs[k] == ""
  {
    var n := StatementEnd(cs);
    if n == |cs| {
      assert cs[..n] == cs;
      JoinedEmpty(cs);
    } else {
      JoinedTerminates(cs, n);
    }
  }

  /** One step of read_statement's loop: reads line i and keeps its text before any '#',
      stripped. */
  method ReadContribution(lines: seq<string>, i: nat) returns (line: string)
    requires i < |lines|
    ensures line == Cleaned(lines)[i]
  {
    var raw := lines[i];
    var idx := FindHash(raw);
    line := if idx >= 0 then raw[..idx] else if raw == "" then "" else raw[..|raw| - 1];
    line := Strip(line);
    CleanedAt(lines, i);
  }

  /** How many lines read_statement consumes from `lines`. */
  function Consumed(lines: seq<string>): (n: nat)
    ensures n <= |lines| && (n == 0 <==> lines == [])
  {
    StatementEnd(Cleaned(lines))
  }

  /** The statement read_statement returns for `lines`. */
  function Statement(lines: seq<string>): string {
    Joined(Cleaned(lines)[..Consumed(lines)])
  }

  /** read_statement: reads lines, appending each non-empty contribution after a space, and
      stops after the first one ending in ';'. Returns the statement and the unread lines. */
  method ReadStatement(lines: seq<string>) returns (stmt: string, rest: seq<string>)
    ensures stmt == Statement(lines) && rest == lines[Consumed(lines)..]
  {
    ghost var cs := Cleaned(lines);
    stmt := "";
    var i := 0;
    var done := false;
    while i < |lines| && !done
      invariant 0 <= i <= StatementEnd(cs)
      invariant stmt == Joined(cs[..i])
      invariant done ==> i == StatementEnd(cs)
      invariant !done && i > 0 ==> !Terminates(cs[i - 1])
    {
      var line := ReadContribution(lines, i);
      JoinedStep(cs, i);
      if i < StatementEnd(cs) - 1 {
        StatementEndFirst(cs, i);
      }
      if |line| > 0 {
        stmt := stmt + (" " + line);
        if line[|line| - 1] == ';' {
          done := true;
        }
      }
      i := i + 1;
    }
    rest := lines[i..];
  }

  /** What read_statement returns: no comment text; a statement ending in ';' unless the
      script ran out; and an empty one exactly when every remaining line contributes nothing. */
  lemma StatementShape(lines: seq<string>)
    ensures '#' !in Statement(lines)
    ensures Consumed(lines) < |lines| ==> Terminates(Statement(lines))
    ensures Statement(lines) == "" <==> forall k :: 0 <= k < |lines| ==> Clean(lines[k]) == ""
  {
    var cs := Cleaned(lines);
    var n := Consumed(lines);
    ReadStops(cs);
    CleanedPrefix(lines, n);
    JoinedNoHash(lines[..n]);
    CleanedAll(lines);
  }

  /** The statements run_file executes, in order. */
  function Statements(lines: seq<string>): (r: seq<string>)
    decreases |lines|
  {
    var st := Statement(lines);
    if st == "" then [] else [st] + Statements(lines[Consumed(lines)..])
  }

  /** run_file: executes statements until read_statement returns an empty one. */
  method RunFile(lines: seq<string>) returns (executed: seq<string>)
    ensures executed == Statements(lines)
  {
    executed := [];
    var rest := lines;
    while true
      invariant executed + Statements(rest) == Statements(lines)
      decreases |rest|
    {
      var stmt, next := ReadStatement(rest);
      if |stmt| > 0 {
        assert (executed + [stmt]) + Statements(next) == executed + ([stmt] + Statements(next));
        executed := executed + [stmt];
        rest := next;
      } else {
        return;
      }
    }
  }

  function Concat(ss: seq<string>): string {
    if ss == [] then "" else ss[0] + Concat(ss[1..])
  }

  lemma ConcatCons(st: string, later: seq<string>)
    ensures Concat([st] + later) == st + Concat(later)
  {
    assert ([st] + later)[1..] == later;
  }

  /** A script read as one empty statement contributes nothing. */
  lemma NothingLeft(lines: seq<string>)
    requires Statement(lines) == ""
    ensures Joined(Cleaned(lines)) == ""
  {
    var cs := Cleaned(lines);
    ReadStops(cs);
    assert cs[..Consumed(lines)] == cs;
  }

  /** The first statement and the rest of the script carry the script's contributions. */
  lemma StatementThenRest(lines: seq<string>)
    ensures Joined(Cleaned(lines)) == Statement(lines) + Joined(Cleaned(lines[Consumed(lines)..]))
  {
    var cs := Cleaned(lines);
    var n := Consumed(lines);
    CleanedSuffix(lines, n);
    assert cs == cs[..n] + cs[n..];
    JoinedAppend(cs[..n], cs[n..]);
  }

  /** Statements run in file order and together carry every line's contribution. */
  lemma {:induction false} StatementsCoverScript(lines: seq<string>)
    ensures Concat(Statements(lines)) == Joined(Cleaned(lines))
    decreases |lines|
  {
    var st := Statement(lines);
    if st == "" {
      NothingLeft(lines);
    } else {
      var n := Consumed(lines);
      StatementsCoverScript(lines[n..]);
      ConcatCons(st, Statements(lines[n..]));
      StatementThenRest(lines);
    }
  }

  /** Every executed statement is non-empty, and all but the last end in ';'. */
  lemma {:induction false} StatementsShape(lines: seq<string>)
    ensures forall k :: 0 <= k < |Statements(lines)| ==> Statements(lines)[k] != ""
    ensures forall k :: 0 <= k < |Statements(lines)| - 1 ==> Terminates(Statements(lines)[k])
    decreases |lines|
  {
    if Statement(lines) != "" {
      StatementsShape(lines[Consumed(lines)..]);
      StatementShape(lines);
    }
  }

  /** The contribution of a last line "COMMIT;" without its '\n'. */
  lemma CommitContribution()
    ensures Clean("COMMIT;") == "COMMIT"
  {
    assert FindHash("COMMIT;") == -1;
    assert CutComment("COMMIT;") == "COMMIT";
    assert TrailingSpace("COMMIT") == 6;
    assert LeadingSpace("COMMIT") == 0;
  }

  /** A script whose last line has no '\n' loses that line's last character: here the ';'. */
  lemma FinalSemicolonLost()
    ensures Statements(["COMMIT;"]) == [" COMMIT"]
  {
    var lines := ["COMMIT;"];
    CommitContribution();
    CleanedAt(lines, 0);
    var cs := Cleaned(lines);
    assert cs == ["COMMIT"];
    assert StatementEnd(cs) == 1;
    assert cs[..1] == cs;
    assert Statement(lines) == " COMMIT";
    assert lines[1..] == [];
  }
}
