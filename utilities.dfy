/**
 * The record tokenizer of the assembly line (class Utilities): a cursor-based
 * field splitter and the two settings every Utilities object shares, the
 * field delimiter and the display field width.
 *
 * Record parsing is specified against Split, the plain split of a string at
 * every occurrence of the delimiter, which Join undoes.
 */
module Utilities {

  /** A position as std::string::find reports it: an index, or npos. */
  datatype Position = Pos(index: nat) | NPos

  /** std::string::find(c, from): the first index at or after `from` holding `c`. */
  function Find(s: string, c: char, from: nat): (r: Position)
    ensures r.Pos? ==> from <= r.index < |s| && s[r.index] == c
    decreases |s| - from
  {
    if from >= |s| then NPos
    else if s[from] == c then Pos(from)
    else Find(s, c, from + 1)
  }

  /** What Find skips holds no `c`: it reports the first occurrence, or npos when there is none. */
  lemma {:induction false} FindSpec(s: string, c: char, from: nat)
    ensures var r := Find(s, c, from);
      && (r.Pos? ==> forall k :: from <= k < r.index ==> s[k] != c)
      && (r.NPos? ==> forall k :: from <= k < |s| ==> s[k] != c)
    decreases |s| - from
  {
    if from < |s| && s[from] != c {
      FindSpec(s, c, from + 1);
    }
  }

  /** std::count: how many times `c` occurs in `s`. */
  function Count(s: string, c: char): nat {
    if |s| == 0 then 0 else (if s[0] == c then 1 else 0) + Count(s[1..], c)
  }

  /**
   * A count is at most the length, is zero exactly when the character does
   * not occur, and is the length exactly when every character is `c`.
   */
  lemma {:induction false} CountBounds(s: string, c: char)
    ensures Count(s, c) <= |s|
    ensures Count(s, c) == 0 <==> c !in s
    ensures Count(s, c) == |s| <==> forall i :: 0 <= i < |s| ==> s[i] == c
  {
    if |s| > 0 {
      CountBounds(s[1..], c);
      assert s == [s[0]] + s[1..];
      assert forall i :: 1 <= i < |s| ==> s[i] == s[1..][i - 1];
    }
  }

  /**
   * Utilities::extractToken. The cursor is a position as find reports it, so
   * it may be npos, and npos + 1 wraps to 0 in the source's size_t arithmetic.
   * The next delimiter is searched from one past the cursor; the token runs
   * from the cursor when it is 0, otherwise from one past it, up to that
   * delimiter or to the end of the string when there is none; the cursor then
   * moves to that delimiter (npos when there is none).
   */
  function ExtractToken(str: string, cursor: Position, delim: char): (r: (string, Position))
    requires cursor.Pos? ==> cursor.index < |str|
    ensures r.1.Pos? ==> r.1.index < |str| && str[r.1.index] == delim
    ensures r.1.Pos? && cursor.Pos? ==> cursor.index < r.1.index
  {
    var from := if cursor.Pos? then cursor.index + 1 else 0;
    var next := Find(str, delim, from);
    var start := if cursor == Pos(0) then 0 else from;
    var stop := if next.Pos? then next.index else |str|;
    (str[start..stop], next)
  }

  /**
   * What extractToken returns: the text from one past the cursor (from 0 when
   * the cursor is 0 or npos) up to the first delimiter after the cursor, or to
   * the end when there is none, in which case the cursor becomes npos. Past a
   * cursor other than 0 the token holds no delimiter.
   */
  lemma ExtractTokenSpec(str: string, cursor: Position, delim: char)
    requires cursor.Pos? ==> cursor.index < |str|
    ensures var r := ExtractToken(str, cursor, delim);
      var from := if cursor.Pos? then cursor.index + 1 else 0;
      var stop := if r.1.Pos? then r.1.index else |str|;
      && from <= stop
      && (forall k :: from <= k < stop ==> str[k] != delim)
      && r.0 == str[(if cursor == Pos(0) then 0 else from)..stop]
      && (cursor != Pos(0) ==> delim !in r.0)
  {
    FindSpec(str, delim, if cursor.Pos? then cursor.index + 1 else 0);
  }

  /** The indices of every `d` in `s` at or after `from`, in increasing order. */
  function DelimitersFrom(s: string, d: char, from: nat): seq<nat>
    decreases |s| - from
  {
    match Find(s, d, from)
    case NPos => []
    case Pos(i) => [i] + DelimitersFrom(s, d, i + 1)
  }

  /** The indices of every delimiter in the record, in increasing order. */
  function Delimiters(s: string, d: char): seq<nat> {
    DelimitersFrom(s, d, 0)
  }

  /** The listed indices are delimiters at or after `from`, in increasing order. */
  lemma {:induction false} DelimitersFromBounds(s: string, d: char, from: nat)
    ensures forall j :: 0 <= j < |DelimitersFrom(s, d, from)| ==>
      from <= DelimitersFrom(s, d, from)[j] < |s| && s[DelimitersFrom(s, d, from)[j]] == d
    ensures forall j :: 0 < j < |DelimitersFrom(s, d, from)| ==>
      DelimitersFrom(s, d, from)[j - 1] < DelimitersFrom(s, d, from)[j]
    decreases |s| - from
  {
    match Find(s, d, from)
    case NPos =>
    case Pos(i) =>
      DelimitersFromBounds(s, d, i + 1);
      assert DelimitersFrom(s, d, from) == [i] + DelimitersFrom(s, d, i + 1);
  }

  /** Searching from `from` finds the first listed index, or npos when none is listed. */
  lemma DelimitersFromFirst(s: string, d: char, from: nat)
    ensures Find(s, d, from)
      == if |DelimitersFrom(s, d, from)| == 0 then NPos else Pos(DelimitersFrom(s, d, from)[0])
  {
  }

  /** Searching from one past listed index `j` finds index j + 1, or npos after the last. */
  lemma {:induction false} DelimitersFromNext(s: string, d: char, from: nat, j: nat)
    requires j < |DelimitersFrom(s, d, from)|
    ensures Find(s, d, DelimitersFrom(s, d, from)[j] + 1)
      == if j + 1 < |DelimitersFrom(s, d, from)| then Pos(DelimitersFrom(s, d, from)[j + 1]) else NPos
    decreases |s| - from
  {
    var i := Find(s, d, from).index;
    var rest := DelimitersFrom(s, d, i + 1);
    assert DelimitersFrom(s, d, from) == [i] + rest;
    if j == 0 {
      DelimitersFromFirst(s, d, i + 1);
    } else {
      DelimitersFromNext(s, d, i + 1, j - 1);
    }
  }

  /** There are as many listed delimiters as std::count counts. */
  lemma {:induction false} DelimitersFromCount(s: string, d: char, from: nat)
    requires from <= |s|
    ensures |DelimitersFrom(s, d, from)| == Count(s[from..], d)
    decreases |s| - from
  {
    if from < |s| {
      DelimitersFromCount(s, d, from + 1);
      assert s[from..][1..] == s[from + 1..];
      if s[from] != d {
        assert Find(s, d, from) == Find(s, d, from + 1);
        assert DelimitersFrom(s, d, from) == DelimitersFrom(s, d, from + 1);
      }
    }
  }

  /** Where field `j` starts: at 0, or one past the delimiter in front of it. */
  function FieldStart(s: string, d: char, j: nat): nat
    requires j <= |Delimiters(s, d)|
  {
    if j == 0 then 0 else Delimiters(s, d)[j - 1] + 1
  }

  /** Where field `j` ends: at the delimiter after it, or at the end of the record. */
  function FieldEnd(s: string, d: char, j: nat): nat
    requires j <= |Delimiters(s, d)|
  {
    var ds := Delimiters(s, d);
    if j < |ds| then ds[j] else |s|
  }

  /** Field `j` of the record: the text between delimiters j - 1 and j. */
  function Field(s: string, d: char, j: nat): (f: string)
    requires j <= |Delimiters(s, d)|
    ensures d !in f
  {
    DelimitersFromBounds(s, d, 0);
    var ds := Delimiters(s, d);
    var lo, hi := FieldStart(s, d, j), FieldEnd(s, d, j);
    assert Find(s, d, lo) == if j < |ds| then Pos(hi) else NPos by {
      if j == 0 {
        DelimitersFromFirst(s, d, 0);
      } else {
        DelimitersFromNext(s, d, 0, j - 1);
      }
    }
    FindSpec(s, d, lo);
    s[lo..hi]
  }

  /** The fields of `s` between consecutive occurrences of `d`, in order: one more than std::count counts delimiters. */
  function Split(s: string, d: char): (fields: seq<string>)
    ensures |fields| == |Delimiters(s, d)| + 1 == Count(s, d) + 1
    ensures forall j :: 0 <= j < |fields| ==> d !in fields[j]
  {
    DelimitersFromCount(s, d, 0);
    assert s[0..] == s;
    seq(|Delimiters(s, d)| + 1, j requires 0 <= j <= |Delimiters(s, d)| => Field(s, d, j))
  }

  /**
   * Extracting from the cursor at delimiter `j` yields field j + 1 (with the
   * delimiter itself in front when that delimiter is at index 0) and moves the
   * cursor to delimiter j + 1, or to npos when delimiter `j` is the last.
   */
  lemma ExtractAtDelimiter(s: string, d: char, j: nat)
    requires j < |Delimiters(s, d)|
    ensures var ds := Delimiters(s, d);
      && ds[j] < |s| && s[ds[j]] == d
      && ExtractToken(s, Pos(ds[j]), d)
         == (if ds[j] == 0 then [d] + Field(s, d, j + 1) else Field(s, d, j + 1),
             if j + 1 < |ds| then Pos(ds[j + 1]) else NPos)
  {
    DelimitersFromBounds(s, d, 0);
    DelimitersFromNext(s, d, 0, j);
    var ds := Delimiters(s, d);
    var hi := FieldEnd(s, d, j + 1);
    if ds[j] == 0 {
      assert s[0..hi] == [d] + s[1..hi];
    }
  }

  /**
   * Past the first delimiter, extracting from the cursor at delimiter `j`
   * yields field j + 1 of the split and moves the cursor to delimiter j + 1,
   * or to npos when delimiter `j` is the last.
   */
  lemma ExtractSplitField(s: string, d: char, j: nat)
    requires 0 < j < |Delimiters(s, d)|
    ensures Delimiters(s, d)[j] < |s|
    ensures ExtractToken(s, Pos(Delimiters(s, d)[j]), d)
      == (Split(s, d)[j + 1], if j + 1 < |Delimiters(s, d)| then Pos(Delimiters(s, d)[j + 1]) else NPos)
  {
    DelimitersFromBounds(s, d, 0);
    ExtractAtDelimiter(s, d, j);
    assert Delimiters(s, d)[j - 1] < Delimiters(s, d)[j];
  }

  /**
   * The first two fields of a record with a delimiter: the text before the
   * first delimiter is field 0 and the token extracted at it is field 1, with
   * the delimiter itself in front when field 0 is empty; the cursor then
   * moves to the second delimiter, or to npos when there is none.
   */
  lemma HeaderTokens(s: string, d: char)
    requires 0 < |Delimiters(s, d)|
    ensures Find(s, d, 0) == Pos(Delimiters(s, d)[0]) && Delimiters(s, d)[0] < |s|
    ensures s[..Delimiters(s, d)[0]] == Split(s, d)[0]
    ensures ExtractToken(s, Pos(Delimiters(s, d)[0]), d)
      == (if Split(s, d)[0] == [] then [d] + Split(s, d)[1] else Split(s, d)[1],
          if 1 < |Delimiters(s, d)| then Pos(Delimiters(s, d)[1]) else NPos)
  {
    FirstDelimiter(s, d);
    ExtractAtDelimiter(s, d, 0);
    assert Split(s, d)[0] == Field(s, d, 0);
    assert Split(s, d)[1] == Field(s, d, 1);
  }

  /**
   * A cursor left at npos wraps around: extracting from it returns the first
   * field again and moves the cursor to the first delimiter.
   */
  lemma ExtractAtNpos(s: string, d: char)
    ensures var ds := Delimiters(s, d);
      ExtractToken(s, NPos, d) == (Field(s, d, 0), if |ds| == 0 then NPos else Pos(ds[0]))
  {
    DelimitersFromFirst(s, d, 0);
  }

  /** The first delimiter, as find reports it, starts the cursor. */
  lemma FirstDelimiter(s: string, d: char)
    ensures var ds := Delimiters(s, d);
      && Find(s, d, 0) == (if |ds| == 0 then NPos else Pos(ds[0]))
      && s[..if |ds| == 0 then |s| else ds[0]] == Field(s, d, 0)
  {
    DelimitersFromFirst(s, d, 0);
  }

  /** The fields put back together with the delimiter between consecutive ones. */
  function Join(fields: seq<string>, d: char): string
    requires |fields| >= 1
  {
    if |fields| == 1 then fields[0] else fields[0] + [d] + Join(fields[1..], d)
  }

  /** Delimiter `j` ends field `j`: it lies at or after the field's start. */
  lemma DelimiterAt(s: string, d: char, j: nat)
    requires j < |Delimiters(s, d)|
    ensures FieldStart(s, d, j) <= Delimiters(s, d)[j] < |s| && s[Delimiters(s, d)[j]] == d
  {
    DelimitersFromBounds(s, d, 0);
  }

  /** Field `j` of the split is the text between delimiters j - 1 and j. */
  lemma SplitField(s: string, d: char, j: nat)
    requires j <= |Delimiters(s, d)|
    ensures FieldStart(s, d, j) <= FieldEnd(s, d, j) <= |s|
    ensures Split(s, d)[j] == s[FieldStart(s, d, j)..FieldEnd(s, d, j)]
  {
    DelimitersFromBounds(s, d, 0);
    assert Split(s, d)[j] == Field(s, d, j);
  }

  /** Joining from field `j` on puts field `j`, then the delimiter, in front of the join from field j + 1 on. */
  lemma JoinFrom(fields: seq<string>, d: char, j: nat)
    requires j + 1 < |fields|
    ensures Join(fields[j..], d) == fields[j] + [d] + Join(fields[j + 1..], d)
  {
    assert fields[j..][1..] == fields[j + 1..];
  }

  /** The text from `lo` on is the text up to `hi`, the character at `hi`, and the text after it. */
  lemma SuffixAt(s: string, lo: nat, hi: nat)
    requires lo <= hi < |s|
    ensures s[lo..] == s[lo..hi] + [s[hi]] + s[hi + 1..]
  {
  }

  /** Joining fields j onwards of `s` gives back the text of `s` from field j on. */
  lemma {:induction false} JoinFieldsFrom(s: string, d: char, j: nat)
    requires j <= |Delimiters(s, d)|
    ensures FieldStart(s, d, j) <= |s|
    ensures Join(Split(s, d)[j..], d) == s[FieldStart(s, d, j)..]
    decreases |Delimiters(s, d)| - j
  {
    var fields := Split(s, d);
    var ds := Delimiters(s, d);
    var lo := FieldStart(s, d, j);
    if j < |ds| {
      DelimiterAt(s, d, j);
      var hi := ds[j];
      JoinFieldsFrom(s, d, j + 1);
      SplitField(s, d, j);
      JoinFrom(fields, d, j);
      SuffixAt(s, lo, hi);
    } else {
      SplitField(s, d, j);
      assert fields[j..] == [fields[j]];
    }
  }

  /** Split loses nothing: joining its fields gives back the record. */
  lemma JoinSplit(s: string, d: char)
    ensures Join(Split(s, d), d) == s
  {
    JoinFieldsFrom(s, d, 0);
    assert Split(s, d)[0..] == Split(s, d);
  }

  /** The settings shared by every Utilities object (static members in the source). */
  class Utilities {
    var delimiter: char
    var fieldWidth: nat

    /** The safe empty state: no delimiter character and a zero field width. */
    constructor ()
      ensures delimiter == '\0' && fieldWidth == 0
    {
      delimiter := '\0';
      fieldWidth := 0;
    }

    function GetDelimiter(): char
      reads this
    {
      delimiter
    }

    function GetFieldWidth(): nat
      reads this
    {
      fieldWidth
    }

    method SetDelimiter(d: char)
      modifies this
      ensures GetDelimiter() == d
      ensures GetFieldWidth() == old(GetFieldWidth())
    {
      delimiter := d;
    }

    method SetFieldWidth(w: nat)
      modifies this
      ensures GetFieldWidth() == w
      ensures GetDelimiter() == old(GetDelimiter())
    {
      fieldWidth := w;
    }
  }
}
