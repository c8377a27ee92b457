/** The two string operations the scheduler relies on: splitting a rule on a single
    space character (Go's strings.Split with the separator " ") and its inverse,
    joining fields with one space. */
module Strings {

  /** Splits `s` at every space character; the pieces between spaces, possibly empty,
      are returned in order. Like strings.Split, an empty string yields one empty piece
      and no separator is ever dropped. */
  function Split(s: string): (r: seq<string>)
    ensures |r| >= 1
    decreases |s|
  {
    if s == [] then [""]
    else
      var rest := Split(s[1..]);
      assert s == [s[0]] + s[1..];
      if s[0] == ' ' then [""] + rest
      else [[s[0]] + rest[0]] + rest[1..]
  }

  /** The number of space characters in `s`. */
  function Spaces(s: string): nat {
    if s == [] then 0 else (if s[0] == ' ' then 1 else 0) + Spaces(s[1..])
  }

  lemma {:induction false} SpacesConcat(a: string, b: string)
    ensures Spaces(a + b) == Spaces(a) + Spaces(b)
    decreases |a|
  {
    if a != [] {
      var ab := a + b;
      assert ab[0] == a[0];
      assert ab[1..] == a[1..] + b;
      SpacesConcat(a[1..], b);
    } else {
      assert a + b == b;
    }
  }

  /** Every space starts a new piece: there is one piece more than there are spaces. */
  lemma {:induction false} SplitCount(s: string)
    ensures |Split(s)| == Spaces(s) + 1
    decreases |s|
  {
    if s != [] {
      SplitCount(s[1..]);
    }
  }

  /** Concatenates the fields with one space between neighbours. */
  function Join(fields: seq<string>): string
    requires |fields| >= 1
  {
    if |fields| == 1 then fields[0] else fields[0] + " " + Join(fields[1..])
  }

  predicate NoSpace(f: string) {
    forall i :: 0 <= i < |f| ==> f[i] != ' '
  }

  lemma {:induction false} NoSpaceCount(f: string)
    requires NoSpace(f)
    ensures Spaces(f) == 0
    decreases |f|
  {
    if f != [] {
      NoSpaceCount(f[1..]);
    }
  }

  /** A piece without spaces is not split at all. */
  lemma {:induction false} SplitNoSpace(f: string)
    requires NoSpace(f)
    ensures Split(f) == [f]
    decreases |f|
  {
    if f != [] {
      SplitNoSpace(f[1..]);
      assert [f[0]] + f[1..] == f;
    }
  }

  /** The first space of `f + " " + t` ends the first piece. */
  lemma {:induction false} SplitAtFirstSpace(f: string, t: string)
    requires NoSpace(f)
    ensures Split(f + " " + t) == [f] + Split(t)
    decreases |f|
  {
    var s := f + " " + t;
    if f == [] {
      assert s[1..] == t;
    } else {
      assert s[1..] == f[1..] + " " + t;
      SplitAtFirstSpace(f[1..], t);
      assert [f[0]] + f[1..] == f;
    }
  }

  /** Prepending a character to the first field prepends it to the join. */
  lemma JoinConsHead(c: char, fields: seq<string>)
    requires |fields| >= 1
    ensures Join([[c] + fields[0]] + fields[1..]) == [c] + Join(fields)
  {
  }

  /** Joining the pieces of a split gives back the original string. */
  lemma {:induction false} JoinSplit(s: string)
    ensures Join(Split(s)) == s
    decreases |s|
  {
    if s != [] {
      var rest := Split(s[1..]);
      JoinSplit(s[1..]);
      assert s == [s[0]] + s[1..];
      if s[0] == ' ' {
        assert ([""] + rest)[1..] == rest;
      } else {
        JoinConsHead(s[0], rest);
      }
    }
  }

  /** Splitting space-free fields joined by single spaces recovers the fields. */
  lemma {:induction false} SplitJoin(fields: seq<string>)
    requires |fields| >= 1
    requires forall k :: 0 <= k < |fields| ==> NoSpace(fields[k])
    ensures Split(Join(fields)) == fields
    decreases |fields|
  {
    if |fields| == 1 {
      SplitNoSpace(fields[0]);
    } else {
      SplitJoin(fields[1..]);
      SplitAtFirstSpace(fields[0], Join(fields[1..]));
      assert [fields[0]] + fields[1..] == fields;
    }
  }
}
