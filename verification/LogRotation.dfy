/**
 Rotation of the log files in log.cpp, in synchronous runs that start with fresh files. A file is named by a
 date and an index; index 0 stands for the name without a suffix.
*/
module LogRotation {

  /** A calendar day, counted from some origin, and its day of the month */
  datatype Date = Date(day: int, mday: int)

  datatype FileName = FileName(date: Date, index: nat)

  /** m_count, m_today and the file behind m_fp; `created` and `lines` record every fopen and the file of every line. */
  datatype Log = Log(count: nat, today: int, file: FileName, created: seq<FileName>, lines: seq<FileName>)

  /** Log::init on day `date` */
  function Init(date: Date): Log {
    Log(0, date.mday, FileName(date, 0), [FileName(date, 0)], [])
  }

  /** Whether write_log changes files before it writes */
  predicate Rotates(s: Log, date: Date, split: nat)
    requires split > 0
  {
    s.today != date.mday || (s.count + 1) % split == 0
  }

  /** write_log on day `date` */
  function WriteLog(s: Log, date: Date, split: nat): Log
    requires split > 0
  {
    var count := s.count + 1;
    var next :=
      if !Rotates(s, date, split) then s.(count := count)
      else if s.today != date.mday then Opened(s.(today := date.mday, count := 0), FileName(date, 0))
      else Opened(s.(count := count), FileName(date, count / split));
    next.(lines := next.lines + [next.file])
  }

  function Opened(s: Log, name: FileName): Log {
    s.(file := name, created := s.created + [name])
  }

  function Run(s: Log, dates: seq<Date>, split: nat): Log
    requires split > 0
    decreases |dates|
  {
    if dates == [] then s else Run(WriteLog(s, dates[0], split), dates[1..], split)
  }

  /** Days do not go backwards, and a day has one day of the month. */
  predicate Follows(last: Date, date: Date) {
    last == date || last.day < date.day
  }

  predicate InOrder(last: Date, dates: seq<Date>)
    decreases |dates|
  {
    dates == [] || (Follows(last, dates[0]) && InOrder(dates[0], dates[1..]))
  }

  /** How many lines went to file `name` */
  function LinesIn(lines: seq<FileName>, name: FileName): nat {
    multiset(lines)[name]
  }

  /** `last` is the day of the last line. No later name has been used, and no file is over its limit. */
  ghost predicate Inv(s: Log, last: Date, split: nat)
    requires split > 0
  {
    && (forall i | 0 <= i < |s.created| :: Earlier(s.created[i], last, s.count / split))
    && (forall i, j | 0 <= i < j < |s.created| :: s.created[i] != s.created[j])
    && s.file in s.created
    && (forall name | name in s.lines :: name in s.created)
    && (forall name | name in s.created :: LinesIn(s.lines, name) <= split)
    && LinesIn(s.lines, s.file) <= s.count % split + 1
  }

  predicate Earlier(name: FileName, last: Date, index: nat) {
    name.date.day < last.day || (name.date == last && name.index <= index)
  }

  lemma NextIndex(count: nat, split: nat)
    requires split > 0
    ensures if (count + 1) % split == 0 then (count + 1) / split == count / split + 1
      else (count + 1) / split == count / split && (count + 1) % split == count % split + 1
  {
    var q, r := count / split, count % split;
    assert count + 1 == q * split + (r + 1);
    if r + 1 == split {
      assert count + 1 == (q + 1) * split;
      DivUnique(count + 1, split, q + 1, 0);
    } else {
      DivUnique(count + 1, split, q, r + 1);
    }
  }

  lemma DivUnique(n: nat, d: nat, q: nat, r: nat)
    requires d > 0 && n == q * d + r && r < d
    ensures n / d == q && n % d == r
  {
    var q', r' := n / d, n % d;
    assert (q - q') * d == r' - r;
    Small(q - q', d);
  }

  lemma Small(k: int, d: nat)
    requires d > 0 && -(d as int) < k * d < d
    ensures k == 0
  {
    assert k >= 1 ==> k * d >= d;
    assert k <= -1 ==> k * d <= -(d as int);
  }

  lemma InitInv(date: Date, split: nat)
    requires split > 0
    ensures Inv(Init(date), date, split)
  {
    NextIndex(0, split);
    DivUnique(0, split, 0, 0);
  }

  lemma LinesAppend(lines: seq<FileName>, file: FileName, name: FileName)
    ensures LinesIn(lines + [file], name) == LinesIn(lines, name) + if name == file then 1 else 0
  {
  }

  /** A line in the current file */
  lemma WriteHere(s: Log, last: Date, date: Date, split: nat)
    requires split > 0 && Inv(s, last, split) && Follows(last, date) && !Rotates(s, date, split)
    ensures Inv(WriteLog(s, date, split), date, split)
  {
    hide LinesIn;
    NextIndex(s.count, split);
    forall name ensures LinesIn(WriteLog(s, date, split).lines, name) ==
      LinesIn(s.lines, name) + if name == s.file then 1 else 0
    {
      LinesAppend(s.lines, s.file, name);
    }
  }

  /** A line in a file whose name has not been used */
  lemma WriteFresh(s: Log, date: Date, split: nat, name: FileName, count: nat, t: Log)
    requires split > 0
    requires forall i | 0 <= i < |s.created| :: s.created[i] != name && Earlier(s.created[i], date, count / split)
    requires forall i, j | 0 <= i < j < |s.created| :: s.created[i] != s.created[j]
    requires forall n | n in s.lines :: n in s.created
    requires forall n | n in s.created :: LinesIn(s.lines, n) <= split
    requires name.date == date && name.index <= count / split
    requires t.created == s.created + [name] && t.file == name && t.lines == s.lines + [name] && t.count == count
    ensures Inv(t, date, split)
  {
    hide LinesIn;
    NoLines(s.lines, name);
    forall n ensures LinesIn(t.lines, n) == LinesIn(s.lines, n) + if n == name then 1 else 0 {
      LinesAppend(s.lines, name, n);
    }
  }

  lemma NoLines(lines: seq<FileName>, name: FileName)
    requires name !in lines
    ensures LinesIn(lines, name) == 0
  {
  }

  lemma WriteKeepsInv(s: Log, last: Date, date: Date, split: nat)
    requires split > 0 && Inv(s, last, split) && Follows(last, date)
    requires s.today == last.mday
    ensures Inv(WriteLog(s, date, split), date, split)
  {
    hide LinesIn;
    if !Rotates(s, date, split) {
      WriteHere(s, last, date, split);
    } else if s.today != date.mday {
      DivUnique(0, split, 0, 0);
      WriteFresh(s, date, split, FileName(date, 0), 0, WriteLog(s, date, split));
    } else {
      NextIndex(s.count, split);
      WriteFresh(s, date, split, FileName(date, (s.count + 1) / split), s.count + 1, WriteLog(s, date, split));
    }
  }

  /** m_today is the day of the month of the last line. */
  lemma TodayIsLast(s: Log, date: Date, split: nat)
    requires split > 0
    ensures WriteLog(s, date, split).today == date.mday
  {
  }

  lemma {:induction false} RunKeepsInv(s: Log, last: Date, dates: seq<Date>, split: nat)
    requires split > 0 && Inv(s, last, split) && s.today == last.mday && InOrder(last, dates)
    ensures Inv(Run(s, dates, split), if dates == [] then last else dates[|dates| - 1], split)
    decreases |dates|
  {
    hide Inv, WriteLog;
    if dates != [] {
      WriteKeepsInv(s, last, dates[0], split);
      TodayIsLast(s, dates[0], split);
      RunKeepsInv(WriteLog(s, dates[0], split), dates[0], dates[1..], split);
    }
  }

  /** In every run no file name is opened twice, and no file receives more lines than the limit. */
  lemma RotationBound(first: Date, dates: seq<Date>, split: nat, name: FileName)
    requires split > 0 && InOrder(first, dates)
    ensures var s := Run(Init(first), dates, split);
      && (forall i, j | 0 <= i < j < |s.created| :: s.created[i] != s.created[j])
      && LinesIn(s.lines, name) <= split
  {
    InitInv(first, split);
    RunKeepsInv(Init(first), first, dates, split);
    var s := Run(Init(first), dates, split);
    if name !in s.lines {
      NoLines(s.lines, name);
    }
  }

  /** The suffix of the current file says how many times the limit has been reached since the count was last reset. */
  lemma {:induction false} SuffixCounts(s: Log, dates: seq<Date>, split: nat)
    requires split > 0 && s.file.index == s.count / split
    ensures Run(s, dates, split).file.index == Run(s, dates, split).count / split
    decreases |dates|
  {
    if dates != [] {
      NextIndex(s.count, split);
      DivUnique(0, split, 0, 0);
      SuffixCounts(WriteLog(s, dates[0], split), dates[1..], split);
    }
  }

  // ----- one file a day -----

  /**
   Every line comes on the day of the line before it, or on another day of the month, or at a count that
   rotates; `count` is m_count, which starts again when the day of the month changes.
  */
  predicate DaysNoticed(last: Date, count: nat, dates: seq<Date>, split: nat)
    requires split > 0
    decreases |dates|
  {
    dates == [] ||
    ((dates[0] == last || dates[0].mday != last.mday || (count + 1) % split == 0) &&
     DaysNoticed(dates[0], if dates[0].mday != last.mday then 0 else count + 1, dates[1..], split))
  }

  function Days(lines: seq<FileName>): (days: seq<Date>)
    ensures |days| == |lines|
  {
    seq(|lines|, i requires 0 <= i < |lines| => lines[i].date)
  }

  /** The file of a line is of the day of that line exactly if it already was, or write_log changes files. */
  lemma OneLine(s: Log, date: Date, split: nat)
    requires split > 0 && s.today == s.file.date.mday
    ensures var next := WriteLog(s, date, split);
      && Days(next.lines) == Days(s.lines) + [next.file.date]
      && (next.file.date == date <==>
            s.file.date == date || date.mday != s.file.date.mday || (s.count + 1) % split == 0)
      && next.count == (if date.mday != s.file.date.mday then 0 else s.count + 1)
      && (next.file.date == date ==> next.today == date.mday)
  {
  }

  lemma {:induction false} LinesStay(s: Log, dates: seq<Date>, split: nat)
    requires split > 0
    ensures s.lines <= Run(s, dates, split).lines
    decreases |dates|
  {
    if dates != [] {
      LinesStay(WriteLog(s, dates[0], split), dates[1..], split);
    }
  }

  /** Each line is in a file of its own day if and only if no change of day goes unnoticed. */
  lemma {:induction false} OwnDayExactly(s: Log, dates: seq<Date>, split: nat)
    requires split > 0 && s.today == s.file.date.mday
    ensures Days(Run(s, dates, split).lines) == Days(s.lines) + dates
      <==> DaysNoticed(s.file.date, s.count, dates, split)
    decreases |dates|
  {
    hide Rotates, WriteLog;
    if dates == [] {
      assert Days(s.lines) + dates == Days(s.lines);
    } else {
      var next := WriteLog(s, dates[0], split);
      OneLine(s, dates[0], split);
      if next.file.date == dates[0] {
        OwnDayExactly(next, dates[1..], split);
        assert Days(next.lines) + dates[1..] == Days(s.lines) + dates;
      } else {
        LinesStay(next, dates[1..], split);
        var k := |s.lines|;
        assert Days(Run(next, dates[1..], split).lines)[k] == Days(next.lines)[k] == next.file.date;
        assert (Days(s.lines) + dates)[k] == dates[0];
      }
    }
  }

  /** From fresh files on: the same for a whole run. */
  lemma OwnDayOverRuns(first: Date, dates: seq<Date>, split: nat)
    requires split > 0
    ensures Days(Run(Init(first), dates, split).lines) == dates <==> DaysNoticed(first, 0, dates, split)
  {
    OwnDayExactly(Init(first), dates, split);
    assert Days(Init(first).lines) + dates == dates;
  }

  /** A line on the first of the next month goes to the file of the first of this month. */
  lemma WrongDay()
    ensures Run(Init(Date(0, 1)), [Date(31, 1)], 5000000).lines == [FileName(Date(0, 1), 0)]
  {
    assert [Date(31, 1)][1..] == [];
    assert 1 % 5000000 == 1;
  }

  // ----- the log as an object -----

  class RotatingLog {
    const splitLines: nat
    var count: nat
    var today: int
    var file: FileName
    /** Every file opened, and the file of every line written */
    ghost var created: seq<FileName>
    ghost var lines: seq<FileName>

    ghost function View(): Log
      reads this
    {
      Log(count, today, file, created, lines)
    }

    constructor (date: Date, splitLines: nat)
      requires splitLines > 0
      ensures View() == Init(date) && this.splitLines == splitLines
    {
      this.splitLines := splitLines;
      count, today, file := 0, date.mday, FileName(date, 0);
      created, lines := [FileName(date, 0)], [];
    }

    method WriteLine(date: Date)
      requires splitLines > 0
      modifies this
      ensures View() == WriteLog(old(View()), date, splitLines)
    {
      count := count + 1;
      if today != date.mday || count % splitLines == 0 {
        if today != date.mday {
          file := FileName(date, 0);
          today := date.mday;
          count := 0;
        } else {
          file := FileName(date, count / splitLines);
        }
        created := created + [file];
      }
      lines := lines + [file];
    }
  }
}
