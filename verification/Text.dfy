/** The string operations identifier URIs are parsed and built with. */
module Text {
  import opened Wrappers

  predicate HasPrefix(s: string, prefix: string) {
    prefix <= s
  }

  /** The text around the first separator (strings.Cut). */
  function Cut(s: string, c: char): Option<(string, string)> {
    if s == "" then None
    else if s[0] == c then Some(("", s[1..]))
    else match Cut(s[1..], c)
      case None => None
      case Some((before, after)) => Some(([s[0]] + before, after))
  }

  lemma {:induction false} CutSplits(s: string, c: char)
    ensures match Cut(s, c)
            case None => c !in s
            case Some((before, after)) => s == before + [c] + after && c !in before
  {
    if s != "" && s[0] != c {
      CutSplits(s[1..], c);
      assert s == [s[0]] + s[1..];
    }
  }

  lemma {:induction false} CutOfJoined(before: string, c: char, after: string)
    requires c !in before
    ensures Cut(before + [c] + after, c) == Some((before, after))
  {
    var s := before + [c] + after;
    if before != "" {
      assert s[1..] == before[1..] + [c] + after;
      CutOfJoined(before[1..], c, after);
      assert before == [before[0]] + before[1..];
    } else {
      assert s[1..] == after;
    }
  }

  /** The parts between separators (strings.Split). */
  function Split(s: string, c: char): (r: seq<string>)
    ensures |r| >= 1
  {
    if s == "" then [""]
    else
      var rest := Split(s[1..], c);
      if s[0] == c then [""] + rest else [[s[0]] + rest[0]] + rest[1..]
  }

  function Join(parts: seq<string>, c: char): string
    requires |parts| >= 1
  {
    if |parts| == 1 then parts[0] else parts[0] + [c] + Join(parts[1..], c)
  }

  lemma {:induction false} JoinOfSplit(s: string, c: char)
    ensures Join(Split(s, c), c) == s
  {
    if s != "" {
      hide Join;
      var rest := Split(s[1..], c);
      JoinOfSplit(s[1..], c);
      if s[0] == c {
        JoinCons("", rest, c);
      } else {
        JoinLonger(s[0], rest, c);
      }
      assert s == [s[0]] + s[1..];
    }
  }

  lemma JoinCons(part: string, rest: seq<string>, c: char)
    requires |rest| >= 1
    ensures Join([part] + rest, c) == part + [c] + Join(rest, c)
  {
    assert ([part] + rest)[1..] == rest;
  }

  /** One more character at the front of the first part. */
  lemma JoinLonger(x: char, rest: seq<string>, c: char)
    requires |rest| >= 1
    ensures Join([[x] + rest[0]] + rest[1..], c) == [x] + Join(rest, c)
  {
    if |rest| == 1 {
      assert [[x] + rest[0]] + rest[1..] == [[x] + rest[0]];
    } else {
      JoinCons([x] + rest[0], rest[1..], c);
      var tail := [c] + Join(rest[1..], c);
      assert Join(rest, c) == rest[0] + tail;
      assert [x] + rest[0] + [c] + Join(rest[1..], c) == [x] + (rest[0] + tail);
    }
  }

  /** No part holds the separator. */
  lemma {:induction false} SplitParts(s: string, c: char)
    ensures forall i | 0 <= i < |Split(s, c)| :: c !in Split(s, c)[i]
  {
    if s != "" {
      SplitParts(s[1..], c);
    }
  }

  lemma {:induction false} SplitOfPlain(s: string, c: char)
    requires c !in s
    ensures Split(s, c) == [s]
  {
    if s != "" {
      SplitOfPlain(s[1..], c);
      assert s == [s[0]] + s[1..];
    }
  }

  lemma {:induction false} SplitOfJoined(head: string, c: char, tail: string)
    requires c !in head
    ensures Split(head + [c] + tail, c) == [head] + Split(tail, c)
  {
    var s := head + [c] + tail;
    if head == "" {
      assert s[1..] == tail;
    } else {
      assert s[1..] == head[1..] + [c] + tail;
      SplitOfJoined(head[1..], c, tail);
      assert head == [head[0]] + head[1..];
    }
  }

  lemma {:induction false} SplitOfJoin(parts: seq<string>, c: char)
    requires |parts| >= 1 && forall i | 0 <= i < |parts| :: c !in parts[i]
    ensures Split(Join(parts, c), c) == parts
  {
    if |parts| == 1 {
      SplitOfPlain(parts[0], c);
    } else {
      SplitOfJoin(parts[1..], c);
      SplitOfJoined(parts[0], c, Join(parts[1..], c));
      assert parts == [parts[0]] + parts[1..];
    }
  }

  lemma {:induction false} JoinMore(parts: seq<string>, c: char, part: string)
    requires |parts| >= 1
    ensures Join(parts + [part], c) == Join(parts, c) + [c] + part
  {
    if |parts| == 1 {
      assert (parts + [part])[1..] == [part];
    } else {
      assert (parts + [part])[1..] == parts[1..] + [part];
      JoinMore(parts[1..], c, part);
      assert parts[0] + [c] + (Join(parts[1..], c) + [c] + part) == parts[0] + [c] + Join(parts[1..], c) + [c] + part;
    }
  }

  /** A prefix and the parts behind it, a separator before each but the first. */
  function Written(prefix: string, parts: seq<string>, c: char): string {
    if parts == [] then prefix else prefix + Join(parts, c)
  }

  /** Writing one more part appends a separator, unless it is the first, and the part. */
  lemma WrittenMore(prefix: string, parts: seq<string>, c: char, part: string)
    ensures Written(prefix, parts + [part], c) == Written(prefix, parts, c) + (if parts == [] then "" else [c]) + part
  {
    if parts == [] {
      assert parts + [part] == [part];
    } else {
      JoinMore(parts, c, part);
    }
  }
}
