/** What the scan makes of any request, well-formed or not. */
module DnsRequest {
  import opened ByteOrder
  import opened DnsCache
  import opened DnsMessage
  import opened DnsReply
  import opened Options
  import opened Wire
  import opened Words

  /** Labels as the scan takes them: any length that fits its byte. */
  ghost predicate LabelsFit(labels: seq<Bytes>) {
    forall i :: 0 <= i < |labels| ==> 0 < |labels[i]| < 256
  }

  /** A name in full: each label behind its length, and the root byte. */
  ghost function Spelled(labels: seq<Bytes>): (r: Bytes)
    requires LabelsFit(labels)
    ensures r != []
  {
    if labels == [] then [0] else [|labels[0]|] + labels[0] + Spelled(labels[1..])
  }

  /** The bytes `x` stand in `b` from `off` to `end`. */
  ghost predicate Stands(b: Bytes, off: nat, end: nat, x: Bytes) {
    off <= end <= |b| && b[off..end] == x
  }

  lemma StandsBoth(b: Bytes, off: nat, end: nat, x: Bytes, y: Bytes)
    ensures Stands(b, off, end, x + y) <==> Stands(b, off, off + |x|, x) && Stands(b, off + |x|, end, y)
  {
    if Stands(b, off, end, x + y) {
      var w := b[off..end];
      assert w[..|x|] == x && w[|x|..] == y;
      assert b[off..off + |x|] == w[..|x|] && b[off + |x|..end] == w[|x|..];
    }
    if Stands(b, off, off + |x|, x) && Stands(b, off + |x|, end, y) {
      assert b[off..end] == b[off..off + |x|] + b[off + |x|..end];
    }
  }

  lemma StandsOne(b: Bytes, off: nat, x: byte)
    ensures Stands(b, off, off + 1, [x]) <==> off < |b| && b[off] == x
  {
  }

  /** A name with its root byte at `z`. */
  ghost predicate NameAt(b: Bytes, off: nat, z: nat, labels: seq<Bytes>) {
    LabelsFit(labels) && Stands(b, off, z + 1, Spelled(labels)) && off <= z
  }

  lemma NameStep(b: Bytes, off: nat, z: nat, labels: seq<Bytes>)
    requires LabelsFit(labels) && labels != []
    ensures LabelsFit(labels[1..])
    ensures NameAt(b, off, z, labels) <==>
      off < |b| && b[off] == |labels[0]| && Stands(b, off + 1, off + 1 + |labels[0]|, labels[0])
      && NameAt(b, off + 1 + |labels[0]|, z, labels[1..])
  {
    var l := labels[0];
    var x := Spelled(labels[1..]);
    assert Spelled(labels) == ([|l|] + l) + x;
    StandsBoth(b, off, z + 1, [|l|] + l, x);
    StandsBoth(b, off, off + 1 + |l|, [|l|], l);
    StandsOne(b, off, |l|);
    hide Stands;
    NotBackwards(b, off + 1 + |l|, z + 1, x);
  }

  lemma NotBackwards(b: Bytes, off: nat, end: nat, x: Bytes)
    ensures Stands(b, off, end, x) ==> end == off + |x| <= |b|
  {
  }

  /** The first byte of a name is zero for the root alone. */
  lemma NameRoot(b: Bytes, off: nat, z: nat, labels: seq<Bytes>)
    requires NameAt(b, off, z, labels)
    ensures z < |b| && (b[off] == 0 <==> labels == [])
    ensures labels == [] ==> z == off
  {
    assert b[off..z + 1][0] == b[off] && |b[off..z + 1]| == z + 1 - off;
  }

  lemma {:induction false} SkipFinds(b: Bytes, off: nat, qlen: nat, z: nat, labels: seq<Bytes>)
    requires off <= qlen <= |b| && off < |b| && NameAt(b, off, z, labels) && (z < qlen || z == off)
    ensures SkipName(b, off, qlen) == Some(z)
    decreases |labels|
  {
    NameRoot(b, off, z, labels);
    if labels != [] {
      NameStep(b, off, z, labels);
      SkipFinds(b, off + 1 + |labels[0]|, qlen, z, labels[1..]);
    }
  }

  lemma {:induction false} SkipFound(b: Bytes, off: nat, qlen: nat) returns (labels: seq<Bytes>)
    requires off <= qlen <= |b| && off < |b| && SkipName(b, off, qlen).Some?
    ensures var z := SkipName(b, off, qlen).value; NameAt(b, off, z, labels) && (z < qlen || z == off)
    decreases |b| - off
  {
    if b[off] == 0 {
      labels := [];
      assert b[off..off + 1] == [0];
    } else {
      var next := off + 1 + b[off];
      var rest := SkipFound(b, next, qlen);
      labels := [b[off + 1..next]] + rest;
      assert labels[1..] == rest && LabelsFit(labels);
      NameStep(b, off, SkipName(b, off, qlen).value, labels);
    }
  }

  /** The scan finds the end of a name exactly where labels in full end with the root byte, inside the message. */
  lemma SkipIs(b: Bytes, off: nat, qlen: nat, z: nat)
    requires off <= qlen <= |b| && off < |b|
    ensures SkipName(b, off, qlen) == Some(z) <==> (z < qlen || z == off) && exists labels :: NameAt(b, off, z, labels)
  {
    if SkipName(b, off, qlen) == Some(z) {
      var labels := SkipFound(b, off, qlen);
    }
    if (z < qlen || z == off) && exists labels :: NameAt(b, off, z, labels) {
      var labels :| NameAt(b, off, z, labels);
      SkipFinds(b, off, qlen, z, labels);
    }
  }

  // ---------------------------------------------------------------- the name

  /** `name` is `s` up to its first NUL. */
  ghost predicate UpToNul(name: Bytes, s: Bytes) {
    name <= s && 0 !in name && (|name| == |s| || s[|name|] == 0)
  }

  lemma {:induction false} CStringIs(b: Bytes, i: nat, j: nat)
    requires i <= j < |b| && b[j] == 0
    ensures UpToNul(CString(b, i), b[i..j])
    decreases j - i
  {
    if i < j && b[i] != 0 {
      CStringIs(b, i + 1, j);
      assert b[i..j] == [b[i]] + b[i + 1..j];
    }
  }

  /** The length bytes but the first become dots. */
  lemma {:induction false} DottedInPlace(b: Bytes, off: nat, qlen: nat, z: nat, labels: seq<Bytes>)
    requires off <= qlen <= |b| && NameAt(b, off, z, labels) && z < qlen && labels != []
    ensures var d := Dots(b, off, qlen); Stands(d, off + 1, z, Dotted(labels)) && d[z] == 0
    decreases |labels|
  {
    hide Spelled;
    NameStep(b, off, z, labels);
    NameRoot(b, off, z, labels);
    var (l, rest) := (labels[0], labels[1..]);
    var (next, c) := (off + 1 + |l|, b[off := 46]);
    NameRoot(b, next, z, rest);
    SameName(b, c, next, z, rest);
    DotsBefore(c, next, qlen);
    var d := Dots(b, off, qlen);
    assert d == Dots(c, next, qlen);
    assert Stands(d, off + 1, next, l) by {
      assert d[off + 1..next] == c[off + 1..next] == b[off + 1..next];
    }
    if rest != [] {
      DottedInPlace(c, next, qlen, z, rest);
      SkipFinds(c, next, qlen, z, rest);
      NextDot(c, next, qlen);
      DottedJoins(d, off + 1, next, z, labels);
    }
  }

  lemma DottedJoins(d: Bytes, off: nat, next: nat, z: nat, labels: seq<Bytes>)
    requires |labels| > 1 && Stands(d, off, next, labels[0]) && next < |d| && d[next] == 46 && Stands(d, next + 1, z, Dotted(labels[1..]))
    ensures Stands(d, off, z, Dotted(labels))
  {
    hide Dotted;
    StandsOne(d, next, 46);
    StandsBoth(d, next, z, [46], Dotted(labels[1..]));
    StandsBoth(d, off, z, labels[0], [46] + Dotted(labels[1..]));
    DottedIs(labels);
  }

  lemma DottedIs(labels: seq<Bytes>)
    requires |labels| > 1
    ensures Dotted(labels) == labels[0] + ([46] + Dotted(labels[1..]))
  {
  }

  lemma SameName(b: Bytes, c: Bytes, off: nat, z: nat, labels: seq<Bytes>)
    requires NameAt(b, off, z, labels) && |b| == |c| && forall k :: off <= k <= z ==> b[k] == c[k]
    ensures NameAt(c, off, z, labels)
  {
    assert c[off..z + 1] == b[off..z + 1];
  }

  // ---------------------------------------------------------------- the questions

  ghost predicate QuestionsFit(qs: seq<Question>) {
    forall i :: 0 <= i < |qs| ==> LabelsFit(qs[i].name) && qs[i].qtype < 65536 && qs[i].qclass < 65536
  }

  ghost function SpelledQuestions(qs: seq<Question>): Bytes
    requires QuestionsFit(qs)
  {
    if qs == [] then [] else Spelled(qs[0].name) + (BE16(qs[0].qtype) + (BE16(qs[0].qclass) + SpelledQuestions(qs[1..])))
  }

  /** Questions one after the other. */
  ghost predicate QuestionsAt(b: Bytes, off: nat, end: nat, qs: seq<Question>) {
    QuestionsFit(qs) && Stands(b, off, end, SpelledQuestions(qs))
  }

  lemma QuestionsStep(b: Bytes, off: nat, end: nat, qs: seq<Question>)
    requires qs != [] && QuestionsFit(qs)
    ensures QuestionsFit(qs[1..])
    ensures var z := off + |Spelled(qs[0].name)| - 1;
      QuestionsAt(b, off, end, qs) <==>
        NameAt(b, off, z, qs[0].name) && z + 5 <= |b| && U16(b, z + 1) == qs[0].qtype && U16(b, z + 3) == qs[0].qclass
        && QuestionsAt(b, z + 5, end, qs[1..])
  {
    var (q, rest) := (qs[0], qs[1..]);
    assert QuestionsFit(rest);
    var (n, t, c, s) := (Spelled(q.name), BE16(q.qtype), BE16(q.qclass), SpelledQuestions(rest));
    var at := off + |n|;
    assert SpelledQuestions(qs) == n + (t + (c + s));
    hide Spelled, LabelsFit, SpelledQuestions, Stands, BE16, U16;
    StandsBoth(b, off, end, n, t + (c + s));
    StandsBoth(b, at, end, t, c + s);
    StandsBoth(b, at + 2, end, c, s);
    StandsPair(b, at, q.qtype);
    StandsPair(b, at + 2, q.qclass);
    NotBackwards(b, at + 4, end, s);
  }

  lemma StandsPair(b: Bytes, off: nat, v: nat)
    requires v < 65536
    ensures Stands(b, off, off + 2, BE16(v)) <==> off + 2 <= |b| && U16(b, off) == v
  {
    if off + 2 <= |b| {
      var w := b[off..off + 2];
      assert w[0] == b[off] && w[1] == b[off + 1];
    }
  }

  /** What the scan says of a question. */
  ghost predicate Tells(a: Ask, start: nat, q: Question) {
    && a.start == start && (a.a <==> q.qtype == 1 && q.qclass == 1)
    && (q.name != [] ==> UpToNul(a.name, Dotted(q.name)))
  }

  /** The questions of a request are found one after the other, each where the one before it ends. */
  ghost predicate TellsAll(asks: seq<Ask>, off: nat, qs: seq<Question>) {
    QuestionsFit(qs) && |asks| == |qs| && forall i :: 0 <= i < |qs| ==> Tells(asks[i], off + |SpelledQuestions(qs[..i])|, qs[i])
  }

  lemma TellsMore(a: Ask, asks: seq<Ask>, off: nat, qs: seq<Question>)
    requires qs != [] && QuestionsFit(qs) && Tells(a, off, qs[0]) && TellsAll(asks, off + |Spelled(qs[0].name)| + 4, qs[1..])
    ensures TellsAll([a] + asks, off, qs) == true
  {
    hide Tells, Spelled, BE16, LabelsFit;
    var at := off + |Spelled(qs[0].name)| + 4;
    forall i | 0 <= i < |qs|
      ensures Tells(([a] + asks)[i], off + |SpelledQuestions(qs[..i])|, qs[i])
    {
      if i == 0 {
        assert qs[..0] == [];
      } else {
        assert qs[..i][1..] == qs[1..][..i - 1] && qs[..i][0] == qs[0];
        assert |SpelledQuestions(qs[..i])| == |Spelled(qs[0].name)| + 4 + |SpelledQuestions(qs[1..][..i - 1])|;
        assert Tells(asks[i - 1], at + |SpelledQuestions(qs[1..][..i - 1])|, qs[1..][i - 1]);
      }
    }
  }

  // ---------------------------------------------------------------- the scan

  lemma SameQuestions(b: Bytes, c: Bytes, off: nat, end: nat, qs: seq<Question>)
    requires |b| == |c| && forall k :: off <= k < |b| ==> b[k] == c[k]
    ensures QuestionsAt(b, off, end, qs) <==> QuestionsAt(c, off, end, qs)
  {
    hide QuestionsFit, SpelledQuestions;
    if off <= end <= |b| {
      assert b[off..end] == c[off..end];
    }
  }

  /** The question that stands at `off`, as the scan sees it. */
  lemma AskTells(b: Bytes, off: nat, qlen: nat, q: Question, z: nat)
    requires off <= qlen <= |b| && NameAt(b, off, z, q.name) && z + 4 < qlen && U16(b, z + 1) == q.qtype && U16(b, z + 3) == q.qclass
    ensures off < |b| && SkipName(b, off, qlen) == Some(z)
    ensures var d := Dots(b, off, qlen);
      Tells(Ask(off, CString(d, off + 1), U16(d, z + 1) == 1 && U16(d, z + 3) == 1), off, q) == true
  {
    NameRoot(b, off, z, q.name);
    SkipFinds(b, off, qlen, z, q.name);
    DotsAfter(b, off, qlen);
    var d := Dots(b, off, qlen);
    hide SkipName, Dots, CString, Dotted;
    if q.name != [] {
      DottedInPlace(b, off, qlen, z, q.name);
      CStringIs(d, off + 1, z);
    }
  }

  /** The first question is read, and the others are left. */
  lemma ScanFirst(b: Bytes, off: nat, qlen: nat, end: nat, qs: seq<Question>) returns (a: Ask, d: Bytes, at: nat)
    requires off <= qlen <= |b| && QuestionsAt(b, off, end, qs) && end <= qlen && qs != []
    ensures QuestionsFit(qs) && LabelsFit(qs[0].name) && Tells(a, off, qs[0]) && at == off + |Spelled(qs[0].name)| + 4
    ensures at <= qlen <= |d| && QuestionsAt(d, at, end, qs[1..]) == true
    ensures var (s, t) := (Scan(b, off, |qs|, qlen), Scan(d, at, |qs| - 1, qlen)); s == Scanned([a] + t.asks, t.ok, t.end)
  {
    hide *;
    FirstFits(b, off, end, qs);
    QuestionsStep(b, off, end, qs);
    var z := off + |Spelled(qs[0].name)| - 1;
    at := z + 5;
    d := Dots(b, off, qlen);
    AtMost(b, at, end, qs[1..]);
    AskTells(b, off, qlen, qs[0], z);
    DotsAfter(b, off, qlen);
    SameQuestions(b, d, at, end, qs[1..]);
    a := Ask(off, CString(d, off + 1), U16(d, z + 1) == 1 && U16(d, z + 3) == 1);
    DnsReply.ScanStep(b, d, off, |qs|, qlen, z + 1, a);
  }

  lemma FirstFits(b: Bytes, off: nat, end: nat, qs: seq<Question>)
    requires QuestionsAt(b, off, end, qs) && qs != []
    ensures QuestionsFit(qs) == true && LabelsFit(qs[0].name) == true
  {
  }

  lemma {:induction false} ScanTells(b: Bytes, off: nat, qlen: nat, end: nat, qs: seq<Question>)
    requires off <= qlen <= |b| && QuestionsAt(b, off, end, qs) && end <= qlen
    ensures var s := Scan(b, off, |qs|, qlen); s.ok && s.end == end && TellsAll(s.asks, off, qs) == true
    decreases |qs|
  {
    if qs == [] {
      assert Stands(b, off, end, []);
    } else {
      hide *;
      var a, d, at := ScanFirst(b, off, qlen, end, qs);
      ScanTells(d, at, qlen, end, qs[1..]);
      TellsMore(a, Scan(d, at, |qs| - 1, qlen).asks, off, qs);
    }
  }

  lemma AtMost(b: Bytes, off: nat, end: nat, qs: seq<Question>)
    requires QuestionsAt(b, off, end, qs)
    ensures off <= end <= |b| && QuestionsFit(qs) == true
  {
  }

  lemma ScanOk(b: Bytes, off: nat, n: nat, qlen: nat)
    requires n > 0 && off <= qlen <= |b| && Scan(b, off, n, qlen).ok
    ensures off < |b| && SkipName(b, off, qlen).Some? && SkipName(b, off, qlen).value + 4 < qlen
    ensures var t := Scan(Dots(b, off, qlen), SkipName(b, off, qlen).value + 5, n - 1, qlen); t.ok && t.end == Scan(b, off, n, qlen).end
  {
    hide SkipName, Dots, CString, U16;
  }

  lemma {:induction false} ScanTold(b: Bytes, off: nat, n: nat, qlen: nat) returns (qs: seq<Question>)
    requires off <= qlen <= |b| && Scan(b, off, n, qlen).ok
    ensures |qs| == n && Scan(b, off, n, qlen).end <= qlen && QuestionsAt(b, off, Scan(b, off, n, qlen).end, qs) == true
    decreases n
  {
    if n == 0 {
      qs := [];
      assert b[off..off] == [];
    } else {
      hide *;
      ScanOk(b, off, n, qlen);
      var (z, d) := (SkipName(b, off, qlen).value, Dots(b, off, qlen));
      var labels := SkipFound(b, off, qlen);
      var rest := ScanTold(d, z + 5, n - 1, qlen);
      DotsAfter(b, off, qlen);
      qs := FirstAnd(b, d, off, z, labels, Scan(d, z + 5, n - 1, qlen).end, rest);
    }
  }

  lemma FirstAnd(b: Bytes, d: Bytes, off: nat, z: nat, labels: seq<Bytes>, end: nat, rest: seq<Question>) returns (qs: seq<Question>)
    requires NameAt(b, off, z, labels) && z + 5 <= |b| == |d| && (forall k :: z <= k < |b| ==> d[k] == b[k])
    requires QuestionsAt(d, z + 5, end, rest)
    ensures |qs| == |rest| + 1 && QuestionsAt(b, off, end, qs) == true
  {
    hide *;
    NameFits(b, off, z, labels);
    SameQuestions(b, d, z + 5, end, rest);
    AtMost(b, z + 5, end, rest);
    var q := Question(labels, U16(b, z + 1), U16(b, z + 3));
    qs := [q] + rest;
    OneMoreFits(q, rest);
    QuestionsStep(b, off, end, qs);
  }

  lemma NameFits(b: Bytes, off: nat, z: nat, labels: seq<Bytes>)
    requires NameAt(b, off, z, labels)
    ensures LabelsFit(labels) == true && z + 1 == off + |Spelled(labels)|
  {
  }

  lemma OneMoreFits(q: Question, rest: seq<Question>)
    requires LabelsFit(q.name) && q.qtype < 65536 && q.qclass < 65536 && QuestionsFit(rest)
    ensures QuestionsFit([q] + rest) == true
  {
    hide LabelsFit;
  }

  /**
   Of any message at all, the scan gets through exactly when the promised number of questions stand
   in it in full, one after the other; and it then sees each of them where it is, its name with dots
   between the labels (up to a NUL byte, if there is one), and whether it asks for an address.
   */
  lemma ScanIs(b: Bytes, off: nat, n: nat, qlen: nat, end: nat)
    requires off <= qlen <= |b|
    ensures var s := Scan(b, off, n, qlen);
      && (s.ok && s.end == end <==> end <= qlen && exists qs :: |qs| == n && QuestionsAt(b, off, end, qs))
      && (s.ok ==> exists qs :: |qs| == n && QuestionsAt(b, off, s.end, qs) && TellsAll(s.asks, off, qs))
  {
    var s := Scan(b, off, n, qlen);
    if s.ok {
      var qs := ScanTold(b, off, n, qlen);
      assert QuestionsAt(b, off, s.end, qs);
      ScanTells(b, off, qlen, s.end, qs);
      assert TellsAll(s.asks, off, qs);
    }
    hide Scan, QuestionsAt, TellsAll;
    if end <= qlen && exists qs :: |qs| == n && QuestionsAt(b, off, end, qs) {
      var qs :| |qs| == n && QuestionsAt(b, off, end, qs);
      ScanTells(b, off, qlen, end, qs);
    }
  }

  /** A request of `n` questions in full, with room behind them for the answers. */
  ghost predicate Answerable(q: Bytes, qlen: nat, slen: nat, n: nat, qs: seq<Question>, end: nat) {
    |qs| == n && QuestionsAt(q, 12, end, qs) && end <= qlen && end + 16 * |Picks(qs)| <= slen
  }

  /** There is a reply exactly to a request of at most 32 questions that stand in it in full, if the answers fit the buffer. */
  lemma RepliesWhen(q: Bytes, qlen: nat, slen: nat, net: Word, max: nat, c0: Cache, c: Cache, reply: Option<Bytes>)
    requires Outcome(q, qlen, slen, net, max, c0, c, reply) == true
    ensures 12 <= |q| && (reply.Some? <==> qlen <= slen && U16(q, 4) <= 32 && exists qs, end :: Answerable(q, qlen, slen, U16(q, 4), qs, end))
  {
    hide Reply, Answers, FindAll, Scan, QuestionsAt, Picks, TellsAll, U16;
    var n := U16(q, 4);
    var s := Scan(q, 12, n, qlen);
    if s.ok {
      ScanIs(q, 12, n, qlen, s.end);
      var qs :| |qs| == n && QuestionsAt(q, 12, s.end, qs) && TellsAll(s.asks, 12, qs);
      WantedMany(s.asks, qs);
      if reply.Some? {
        assert Answerable(q, qlen, slen, n, qs, s.end);
      }
    }
    if qs, end :| Answerable(q, qlen, slen, n, qs, end) {
      ScanTells(q, 12, qlen, end, qs);
      WantedMany(s.asks, qs);
    }
  }

  lemma WantedMany(asks: seq<Ask>, qs: seq<Question>)
    requires TellsAll(asks, 12, qs)
    ensures |Wanted(asks)| == |Picks(qs)|
  {
    hide Wanted, Picks, SpelledQuestions, QuestionsFit;
    WantedPicks(asks, qs);
  }
}
