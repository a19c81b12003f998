/** Splitting the level text into rows. */
module Text {

  /** The rows joined back together with sep between neighbours. */
  function Join(rows: seq<string>, sep: char): string
  {
    if |rows| == 0 then ""
    else if |rows| == 1 then rows[0]
    else rows[0] + [sep] + Join(rows[1..], sep)
  }

  /** JavaScript's s.split(sep) for a one-character separator: the text between separators,
      including the empty text after a trailing separator. */
  function Split(s: string, sep: char): (rows: seq<string>)
    ensures |rows| >= 1
  {
    if |s| == 0 then [""]
    else
      var rest := Split(s[1..], sep);
      if s[0] == sep then [""] + rest
      else [[s[0]] + rest[0]] + rest[1..]
  }

  /** No row of a split holds the separator. */
  lemma {:induction false} SplitRowsPlain(s: string, sep: char)
    ensures forall j :: 0 <= j < |Split(s, sep)| ==> sep !in Split(s, sep)[j]
  {
    if |s| > 0 {
      SplitRowsPlain(s[1..], sep);
      var rest := Split(s[1..], sep);
      if s[0] != sep {
        var rows := Split(s, sep);
        assert rows[0] == [s[0]] + rest[0];
        forall j | 1 <= j < |rows| ensures sep !in rows[j] {
          assert rows[j] == rest[j];
        }
      }
    }
  }

  /** Joining the rows of a split with the separator gives back the text. */
  lemma {:induction false} JoinSplit(s: string, sep: char)
    ensures Join(Split(s, sep), sep) == s
  {
    if |s| > 0 {
      JoinSplit(s[1..], sep);
      var rest := Split(s[1..], sep);
      assert s == [s[0]] + s[1..];
      if s[0] == sep {
        assert ([""] + rest)[1..] == rest;
      } else {
        var rows := [[s[0]] + rest[0]] + rest[1..];
        assert rows[1..] == rest[1..];
        assert |rest| > 1 ==> Join(rest, sep) == rest[0] + [sep] + Join(rest[1..], sep);
        assert |rest| > 1 ==> Join(rows, sep) == [s[0]] + (rest[0] + [sep] + Join(rest[1..], sep));
      }
    }
  }

  /** A row without a separator splits to itself. */
  lemma {:induction false} SplitPlain(a: string, sep: char)
    requires sep !in a
    ensures Split(a, sep) == [a]
  {
    if |a| > 0 {
      SplitPlain(a[1..], sep);
      assert [a[0]] + a[1..] == a;
    }
  }

  /** A separator after a plain row starts the next row. */
  lemma {:induction false} SplitCons(a: string, t: string, sep: char)
    requires sep !in a
    ensures Split(a + [sep] + t, sep) == [a] + Split(t, sep)
  {
    var s := a + [sep] + t;
    if |a| == 0 {
      assert s[1..] == t;
    } else {
      assert s[1..] == a[1..] + [sep] + t;
      SplitCons(a[1..], t, sep);
      assert [a[0]] + a[1..] == a;
    }
  }

  /** Splitting undoes joining rows that hold no separator. */
  lemma {:induction false} SplitJoin(rows: seq<string>, sep: char)
    requires |rows| >= 1
    requires forall j :: 0 <= j < |rows| ==> sep !in rows[j]
    ensures Split(Join(rows, sep), sep) == rows
  {
    if |rows| == 1 {
      SplitPlain(rows[0], sep);
    } else {
      SplitJoin(rows[1..], sep);
      SplitCons(rows[0], Join(rows[1..], sep), sep);
      assert [rows[0]] + rows[1..] == rows;
    }
  }
}
