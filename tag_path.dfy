/** Dot paths: .NET's `string.Split('.')` and the '.'-joining that
    GetTagStringHierarchy performs, with their round trips. */
module TagPath {

  const Separator: char := '.'

  /** `s.Split('.')`: n separators give n + 1 parts, empty parts are kept,
      so "" gives [""]. */
  function Split(s: string): (parts: seq<string>)
    ensures |parts| >= 1
    ensures forall i :: 0 <= i < |parts| ==> Separator !in parts[i]
  {
    if s == [] then [[]]
    else
      var rest := Split(s[1..]);
      if s[0] == Separator then [[]] + rest
      else [[s[0]] + rest[0]] + rest[1..]
  }

  /** The parts with one separator between each neighbouring pair. */
  function Join(parts: seq<string>): string
    requires |parts| >= 1
  {
    if |parts| == 1 then parts[0] else parts[0] + [Separator] + Join(parts[1..])
  }

  /** Every part followed by a separator: "a.b." for ["a", "b"]. */
  function Terminated(parts: seq<string>): string
  {
    if parts == [] then [] else parts[0] + [Separator] + Terminated(parts[1..])
  }

  /** Joining the parts of a split gives back the split string. */
  lemma {:induction false} JoinSplit(s: string)
    ensures Join(Split(s)) == s
  {
    if s != [] {
      var rest := Split(s[1..]);
      JoinSplit(s[1..]);
      if s[0] == Separator {
        assert Split(s) == [[]] + rest;
        assert Join(Split(s)) == [] + [Separator] + Join(rest);
        assert s == [s[0]] + s[1..];
      } else if |rest| == 1 {
        assert Split(s) == [[s[0]] + rest[0]];
        assert s == [s[0]] + s[1..];
      } else {
        var parts := Split(s);
        assert parts == [[s[0]] + rest[0]] + rest[1..];
        assert parts[1..] == rest[1..];
        assert Join(rest) == rest[0] + [Separator] + Join(rest[1..]);
        calc {
          Join(parts);
          ([s[0]] + rest[0]) + [Separator] + Join(rest[1..]);
          [s[0]] + (rest[0] + [Separator] + Join(rest[1..]));
          [s[0]] + s[1..];
          s;
        }
      }
    }
  }

  /** Splitting a string that starts with a separator-free word. */
  lemma {:induction false} SplitAfterWord(w: string, x: string)
    requires Separator !in w
    ensures Split(w + x) == [w + Split(x)[0]] + Split(x)[1..]
  {
    if w != [] {
      SplitAfterWord(w[1..], x);
      assert (w + x)[1..] == w[1..] + x;
      assert (w + x)[0] == w[0];
      assert [w[0]] + (w[1..] + Split(x)[0]) == w + Split(x)[0];
    } else {
      var p := Split(x);
      assert w + x == x;
      assert w + p[0] == p[0];
      assert p == [p[0]] + p[1..];
    }
  }

  /** Splitting the join of separator-free parts gives back the parts. */
  lemma {:induction false} SplitJoin(parts: seq<string>)
    requires |parts| >= 1
    requires forall i :: 0 <= i < |parts| ==> Separator !in parts[i]
    ensures Split(Join(parts)) == parts
  {
    if |parts| == 1 {
      SplitAfterWord(parts[0], []);
      assert parts[0] + [] == parts[0];
    } else {
      var tail := Join(parts[1..]);
      SplitJoin(parts[1..]);
      var x := [Separator] + tail;
      assert Join(parts) == parts[0] + x;
      SplitAfterWord(parts[0], x);
      assert x[1..] == tail;
      assert Split(x) == [[]] + parts[1..];
      assert parts[0] + [] == parts[0];
    }
  }

  /** Terminated parts followed by one more part are the join of all of them. */
  lemma {:induction false} TerminatedThenPart(parts: seq<string>, last: string)
    ensures Terminated(parts) + last == Join(parts + [last])
  {
    if parts != [] {
      TerminatedThenPart(parts[1..], last);
      assert (parts + [last])[1..] == parts[1..] + [last];
      assert (parts + [last])[0] == parts[0];
    } else {
      assert parts + [last] == [last];
    }
  }

  /** Terminated can be grown at its end, one part at a time. */
  lemma {:induction false} TerminatedSnoc(parts: seq<string>, last: string)
    ensures Terminated(parts + [last]) == Terminated(parts) + last + [Separator]
  {
    if parts != [] {
      TerminatedSnoc(parts[1..], last);
      assert (parts + [last])[1..] == parts[1..] + [last];
      assert (parts + [last])[0] == parts[0];
    } else {
      assert parts + [last] == [last];
    }
  }
}
