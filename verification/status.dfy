/**
 How a worker turns the outcome of one HTTP fetch into the label the
 report counts: a transport error is reduced to the last `": "`-separated
 segment of its message, and a response is labelled by its status text.
 */
module Status {

  datatype Option<T> = None | Some(value: T)

  /** The separator Go error messages use between wrapped contexts. */
  const Sep: string := ": "

  /** The separator starts at position `j` of `s`. */
  predicate SepAt(s: string, j: int) {
    0 <= j && j + 2 <= |s| && s[j] == ':' && s[j + 1] == ' '
  }

  predicate Contains(s: string) {
    exists j :: 0 <= j < |s| && SepAt(s, j)
  }

  /** The first position at or after `j` where the separator starts. */
  function IndexFrom(s: string, j: nat): (r: Option<nat>)
    requires j <= |s|
    ensures r.Some? ==> j <= r.value && SepAt(s, r.value)
    ensures r.Some? ==> forall k :: j <= k < r.value ==> !SepAt(s, k)
    ensures r.None? ==> forall k :: j <= k ==> !SepAt(s, k)
    decreases |s| - j
  {
    if j + 2 > |s| then None
    else if SepAt(s, j) then Some(j)
    else IndexFrom(s, j + 1)
  }

  /** `strings.Index(s, ": ")`, with `None` for -1. */
  function Index(s: string): (r: Option<nat>)
    ensures r.None? <==> !Contains(s)
  {
    IndexFrom(s, 0)
  }

  lemma IndexIs(s: string, i: nat)
    requires SepAt(s, i)
    requires forall k :: 0 <= k < i ==> !SepAt(s, k)
    ensures Index(s) == Some(i)
  {
  }

  /** Nothing before the first separator contains one. */
  lemma PrefixFree(s: string, i: nat)
    requires i <= |s|
    requires forall k :: 0 <= k < i ==> !SepAt(s, k)
    ensures !Contains(s[..i])
  {
    forall j | SepAt(s[..i], j)
      ensures false
    {
      assert SepAt(s, j);
    }
  }

  /** `strings.Split(s, ": ")`: the pieces between successive separators,
      scanning left to right. There is always at least one piece, and no
      piece contains the separator. */
  function Split(s: string): (parts: seq<string>)
    ensures |parts| >= 1
    ensures forall i :: 0 <= i < |parts| ==> !Contains(parts[i])
    decreases |s|
  {
    match Index(s)
    case None => [s]
    case Some(i) =>
      PrefixFree(s, i);
      [s[..i]] + Split(s[i + 2..])
  }

  /** `strings.Join(parts, ": ")`. */
  function Join(parts: seq<string>): string {
    if |parts| == 0 then ""
    else if |parts| == 1 then parts[0]
    else parts[0] + Sep + Join(parts[1..])
  }

  /** Joining the pieces back with the separator restores the message. */
  lemma {:induction false} SplitJoin(s: string)
    ensures Join(Split(s)) == s
    decreases |s|
  {
    match Index(s)
    case None =>
    case Some(i) =>
      SplitJoin(s[i + 2..]);
      assert s == s[..i] + Sep + s[i + 2..];
  }

  /** Splitting a join of separator-free pieces gives the pieces back. */
  lemma {:induction false} JoinSplit(parts: seq<string>)
    requires |parts| >= 1
    requires forall i :: 0 <= i < |parts| ==> !Contains(parts[i])
    ensures Split(Join(parts)) == parts
  {
    if |parts| == 1 {
      assert !Contains(parts[0]);
    } else {
      var p := parts[0];
      var rest := Join(parts[1..]);
      var s := p + Sep + rest;
      assert !Contains(p);
      forall k | 0 <= k < |p|
        ensures !SepAt(s, k)
      {
        if k + 2 <= |p| {
          assert !SepAt(p, k);
        } else {
          assert s[k + 1] == ':';
        }
      }
      IndexIs(s, |p|);
      assert s[..|p|] == p;
      assert s[|p| + 2..] == rest;
      JoinSplit(parts[1..]);
    }
  }

  /** A message without the separator is its own single piece, and the last
      piece of any split ends the message. */
  lemma {:induction false} SplitLast(s: string)
    ensures Split(s) == [s] <==> !Contains(s)
    ensures var parts := Split(s); var last := parts[|parts| - 1];
      |last| <= |s| && s[|s| - |last|..] == last
    decreases |s|
  {
    match Index(s)
    case None =>
    case Some(i) =>
      var rest := s[i + 2..];
      SplitLast(rest);
      var parts := Split(rest);
      var last := parts[|parts| - 1];
      assert Split(s) == [s[..i]] + parts;
      assert s[|s| - |last|..] == rest[|rest| - |last|..];
  }

  /** The last piece of a split: free of the separator, the whole message
      when it has none, and always a suffix of the message. */
  function LastSegment(msg: string): (seg: string)
    ensures !Contains(seg)
    ensures !Contains(msg) ==> seg == msg
    ensures |seg| <= |msg| && msg[|msg| - |seg|..] == seg
  {
    SplitLast(msg);
    var parts := Split(msg);
    parts[|parts| - 1]
  }

  /** Past the first separator, the last segment is that of the rest. */
  lemma LastSegmentStep(msg: string, i: nat)
    requires Index(msg) == Some(i)
    ensures LastSegment(msg) == LastSegment(msg[i + 2..])
  {
    var parts := Split(msg[i + 2..]);
    var all := Split(msg);
    assert all == [msg[..i]] + parts;
    assert all[|all| - 1] == parts[|parts| - 1];
  }

  /** A suffix of the rest after a separator is a suffix of the message. */
  lemma SuffixAfterSep(msg: string, i: nat, seg: string)
    requires SepAt(msg, i)
    requires var rest := msg[i + 2..];
      (!Contains(rest) ==> seg == rest)
      && (Contains(rest) ==> |seg| + 2 <= |rest| && rest[|rest| - |seg| - 2..] == Sep + seg)
    ensures |seg| + 2 <= |msg| && msg[|msg| - |seg| - 2..] == Sep + seg
  {
    var rest := msg[i + 2..];
    if Contains(rest) {
      assert msg[|msg| - |seg| - 2..] == rest[|rest| - |seg| - 2..];
    } else {
      assert msg[i..] == Sep + rest;
    }
  }

  /** The last segment is the whole message when it has no separator, and
      otherwise what follows its last separator. */
  lemma {:induction false} LastSegmentShape(msg: string)
    ensures var seg := LastSegment(msg);
      && (!Contains(msg) ==> seg == msg)
      && (Contains(msg) ==> |seg| + 2 <= |msg| && msg[|msg| - |seg| - 2..] == Sep + seg)
    decreases |msg|
  {
    match Index(msg)
    case None =>
    case Some(i) =>
      LastSegmentShape(msg[i + 2..]);
      LastSegmentStep(msg, i);
      SuffixAfterSep(msg, i, LastSegment(msg));
  }

  /** Two separators never overlap: a later one lies wholly after an
      earlier one. */
  lemma SepAfterSep(s: string, q: nat, q': nat)
    requires SepAt(s, q) && SepAt(s, q') && q < q'
    ensures Contains(s[q + 2..])
  {
    assert q' != q + 1;
    assert SepAt(s[q + 2..], q' - q - 2);
  }

  /** Conversely, any way of writing the message as a prefix, a separator
      and a separator-free tail has that tail as its last segment. */
  lemma LastSegmentUnique(p: string, l: string)
    requires !Contains(l)
    ensures LastSegment(p + Sep + l) == l
  {
    var msg := p + Sep + l;
    assert SepAt(msg, |p|);
    LastSegmentShape(msg);
    var seg := LastSegment(msg);
    var q := |p|;
    var q' := |msg| - |seg| - 2;
    assert SepAt(msg, q');
    assert msg[q + 2..] == l;
    assert msg[q' + 2..] == seg;
    if q < q' {
      SepAfterSep(msg, q, q');
    } else if q' < q {
      SepAfterSep(msg, q', q);
    }
  }

  /** What one fetch with Go's HTTP client came back with. */
  datatype Fetch =
    | TransportError(message: string)
    | Response(statusText: string)

  /** The label recorded for a fetch: for an error, the last segment of its
      message, which carries no separator and is either the whole message or
      what follows its last separator; otherwise the status text. */
  function Classify(f: Fetch): (st: string)
    ensures f.TransportError? ==>
      && !Contains(st)
      && |st| <= |f.message|
      && f.message[|f.message| - |st|..] == st
    ensures f.TransportError? && !Contains(f.message) ==> st == f.message
    ensures f.TransportError? && Contains(f.message) ==>
      |st| + 2 <= |f.message| && f.message[|f.message| - |st| - 2..] == Sep + st
    ensures f.Response? ==> st == f.statusText
  {
    match f
    case TransportError(message) =>
      LastSegmentShape(message);
      LastSegment(message)
    case Response(statusText) => statusText
  }
}
