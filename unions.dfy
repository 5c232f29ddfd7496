/**
 * `strings.Split(s, "|")` and its inverse `strings.Join(parts, "|")`: the textual
 * form of a union type such as "INT|FLOAT".
 */
module Unions {

  const Pipe: char := '|'

  /** Join(parts) puts a pipe between consecutive parts. */
  function Join(parts: seq<string>): (s: string)
    requires |parts| >= 1
  {
    if |parts| == 1 then parts[0] else parts[0] + [Pipe] + Join(parts[1..])
  }

  /**
   * Split(s) cuts s at every pipe. Like Go's strings.Split with a non-empty
   * separator it never returns an empty list: Split("") is [""], and a leading,
   * trailing or doubled pipe yields an empty part.
   */
  function Split(s: string): (parts: seq<string>)
    ensures |parts| >= 1
    ensures forall i :: 0 <= i < |parts| ==> Pipe !in parts[i]
    ensures Join(parts) == s
  {
    if s == [] then
      [[]]
    else
      var rest := Split(s[1..]);
      if s[0] == Pipe then
        [[]] + rest
      else
        [[s[0]] + rest[0]] + rest[1..]
  }

  /** Every option of union a is an option of union b. */
  predicate SubUnion(a: string, b: string)
  {
    forall part :: part in Split(a) ==> part in Split(b)
  }

  lemma {:induction false} SplitPrefix(p: string, s: string)
    requires Pipe !in p
    ensures Split(p + s) == [p + Split(s)[0]] + Split(s)[1..]
    decreases |p|
  {
    if p != [] {
      assert (p + s)[1..] == p[1..] + s;
      SplitPrefix(p[1..], s);
      var rest := Split(p[1..] + s);
      assert rest[0] == p[1..] + Split(s)[0] && rest[1..] == Split(s)[1..];
      assert [p[0]] + rest[0] == p + Split(s)[0];
    } else {
      assert p + s == s && p + Split(s)[0] == Split(s)[0];
      assert [Split(s)[0]] + Split(s)[1..] == Split(s);
    }
  }

  /** Splitting a joined list of pipe-free parts gives the parts back. */
  lemma {:induction false} SplitJoin(parts: seq<string>)
    requires |parts| >= 1
    requires forall i :: 0 <= i < |parts| ==> Pipe !in parts[i]
    ensures Split(Join(parts)) == parts
    decreases |parts|
  {
    if |parts| == 1 {
      SplitPrefix(parts[0], []);
      assert parts[0] + [] == parts[0];
    } else {
      var tail := Join(parts[1..]);
      SplitJoin(parts[1..]);
      assert parts[0] + [Pipe] + tail == parts[0] + ([Pipe] + tail);
      SplitPrefix(parts[0], [Pipe] + tail);
      assert ([Pipe] + tail)[1..] == tail;
      assert parts[0] + [] == parts[0];
      assert [parts[0]] + parts[1..] == parts;
    }
  }

}
