/** Reading a DNS message, by section 4.1 of RFC 1035. */
module DnsMessage {
  import opened ByteOrder
  import opened Options
  import opened Wire

  datatype Question = Question(name: seq<Bytes>, qtype: nat, qclass: nat)

  datatype Record = Record(name: seq<Bytes>, rtype: nat, rclass: nat, ttl: nat, data: Bytes)

  datatype Message = Message(id: nat, flags: nat, questions: seq<Question>, answers: seq<Record>)

  /** A domain name that starts at `off`; a pointer must lead before `base`, where the part being read began. */
  function Name(b: Bytes, base: nat, off: nat): (r: Option<(seq<Bytes>, nat)>)
    decreases base, |b| - off
  {
    if off >= |b| then None
    else if b[off] == 0 then Some(([], off + 1))
    else if b[off] < 64 then
      var next := off + 1 + b[off];
      if next > |b| then None else
      match Name(b, base, next)
      case None => None
      case Some((labels, end)) => Some(([b[off + 1..next]] + labels, end))
    else if b[off] >= 192 && off + 2 <= |b| then
      var high: nat := b[off] - 192;
      var to := high * 256 + b[off + 1];
      if to >= base then None else
      match Name(b, to, to)
      case None => None
      case Some((labels, _)) => Some((labels, off + 2))
    else None
  }

  function Questions(b: Bytes, off: nat, n: nat): Option<(seq<Question>, nat)>
    decreases n
  {
    if n == 0 then Some(([], off)) else
    match Name(b, off, off)
    case None => None
    case Some((labels, at)) =>
      if at + 4 > |b| then None else
      match Questions(b, at + 4, n - 1)
      case None => None
      case Some((rest, end)) => Some(([Question(labels, U16(b, at), U16(b, at + 2))] + rest, end))
  }

  function Records(b: Bytes, off: nat, n: nat): Option<(seq<Record>, nat)>
    decreases n
  {
    if n == 0 then Some(([], off)) else
    match Name(b, off, off)
    case None => None
    case Some((labels, at)) =>
      if at + 10 > |b| then None else
      var data := at + 10;
      var next := data + U16(b, at + 8);
      if next > |b| then None else
      match Records(b, next, n - 1)
      case None => None
      case Some((rest, end)) =>
        Some(([Record(labels, U16(b, at), U16(b, at + 2), U32(b, at + 4), b[data..next])] + rest, end))
  }

  /** A whole message without authority or additional records. */
  function Decode(b: Bytes): Option<Message> {
    if |b| < 12 || U16(b, 8) != 0 || U16(b, 10) != 0 then None else
    match Questions(b, 12, U16(b, 4))
    case None => None
    case Some((questions, at)) =>
      match Records(b, at, U16(b, 6))
      case None => None
      case Some((answers, end)) =>
        if end != |b| then None else Some(Message(U16(b, 0), U16(b, 2), questions, answers))
  }

  // ---------------------------------------------------------------- names without pointers

  /** A name written out in full. */
  function Labels(b: Bytes, off: nat): (r: Option<(seq<Bytes>, nat)>)
    ensures r.Some? ==> off < r.value.1 <= |b| && b[r.value.1 - 1] == 0
    decreases |b| - off
  {
    if off >= |b| || b[off] >= 64 then None
    else if b[off] == 0 then Some(([], off + 1))
    else
      var next := off + 1 + b[off];
      if next > |b| then None else
      match Labels(b, next)
      case None => None
      case Some((labels, end)) => Some(([b[off + 1..next]] + labels, end))
  }

  ghost predicate Same(b: Bytes, c: Bytes, lo: nat, hi: nat) {
    hi <= |b| && hi <= |c| && forall k :: lo <= k < hi ==> b[k] == c[k]
  }

  /** It reads the same wherever the same bytes stand. */
  lemma {:induction false} LabelsName(b: Bytes, c: Bytes, base: nat, off: nat)
    requires Labels(b, off).Some? && Same(b, c, off, Labels(b, off).value.1)
    ensures Name(c, base, off) == Labels(b, off)
    decreases |b| - off
  {
    if b[off] != 0 {
      var next := off + 1 + b[off];
      LabelsName(b, c, base, next);
      assert b[off + 1..next] == c[off + 1..next];
    }
  }

  /** The questions of a query, every name written out in full. */
  function Asked(b: Bytes, off: nat, n: nat): (r: Option<(seq<Question>, seq<nat>, nat)>)
    ensures r.Some? ==> |r.value.0| == |r.value.1| == n && off <= r.value.2 && (n > 0 ==> r.value.2 <= |b|)
    ensures r.Some? ==> forall i :: 0 <= i < n ==> off <= r.value.1[i] < r.value.2
    decreases n
  {
    if n == 0 then Some(([], [], off)) else
    match Labels(b, off)
    case None => None
    case Some((labels, at)) =>
      if at + 4 > |b| then None else
      match Asked(b, at + 4, n - 1)
      case None => None
      case Some((rest, starts, end)) => Some(([Question(labels, U16(b, at), U16(b, at + 2))] + rest, [off] + starts, end))
  }

  lemma {:induction false} AskedQuestions(b: Bytes, c: Bytes, off: nat, n: nat)
    requires Asked(b, off, n).Some? && Same(b, c, off, Asked(b, off, n).value.2)
    ensures Questions(c, off, n) == Some((Asked(b, off, n).value.0, Asked(b, off, n).value.2))
    decreases n
  {
    if n > 0 {
      var (labels, at) := Labels(b, off).value;
      var (rest, starts, end) := Asked(b, at + 4, n - 1).value;
      LabelsName(b, c, off, off);
      AskedQuestions(b, c, at + 4, n - 1);
      assert U16(c, at) == U16(b, at) && U16(c, at + 2) == U16(b, at + 2);
      QuestionsStep(c, off, n, labels, at, rest, end);
    }
  }

  lemma QuestionsStep(c: Bytes, off: nat, n: nat, labels: seq<Bytes>, at: nat, rest: seq<Question>, end: nat)
    requires n > 0 && Name(c, off, off) == Some((labels, at)) && at + 4 <= |c| && Questions(c, at + 4, n - 1) == Some((rest, end))
    ensures Questions(c, off, n) == Some(([Question(labels, U16(c, at), U16(c, at + 2))] + rest, end))
  {
  }

  /** A pointer to the place of a question reads its name. */
  lemma {:induction false} AskedName(b: Bytes, c: Bytes, off: nat, n: nat, i: nat)
    requires Asked(b, off, n).Some? && Same(b, c, off, Asked(b, off, n).value.2) && i < n
    ensures var (qs, starts, _) := Asked(b, off, n).value;
      Name(c, starts[i], starts[i]).Some? && Name(c, starts[i], starts[i]).value.0 == qs[i].name
    decreases n
  {
    var (labels, at) := Labels(b, off).value;
    if i == 0 {
      LabelsName(b, c, off, off);
    } else {
      AskedName(b, c, at + 4, n - 1, i - 1);
    }
  }

  /** What is read from a place depends on the bytes from there on. */
  lemma {:induction false} LabelsFrom(b: Bytes, c: Bytes, off: nat)
    requires |b| == |c| && forall k :: off <= k < |b| ==> b[k] == c[k]
    ensures Labels(b, off) == Labels(c, off)
    decreases |b| - off
  {
    if off < |b| && 0 < b[off] < 64 && off + 1 + b[off] <= |b| {
      var next := off + 1 + b[off];
      LabelsFrom(b, c, next);
      assert b[off + 1..next] == c[off + 1..next];
    }
  }

  lemma {:induction false} AskedFrom(b: Bytes, c: Bytes, off: nat, n: nat)
    requires |b| == |c| && forall k :: off <= k < |b| ==> b[k] == c[k]
    ensures Asked(b, off, n) == Asked(c, off, n)
    decreases n
  {
    if n > 0 {
      LabelsFrom(b, c, off);
      var l := Labels(b, off);
      if l.Some? && l.value.1 + 4 <= |b| {
        AskedFrom(b, c, l.value.1 + 4, n - 1);
        AskedSame(b, c, off, n);
      }
    }
  }

  lemma AskedSame(b: Bytes, c: Bytes, off: nat, n: nat)
    requires n > 0 && |b| == |c| && Labels(b, off) == Labels(c, off) && Labels(b, off).Some? && Labels(b, off).value.1 + 4 <= |b|
    requires var at := Labels(b, off).value.1;
      U16(b, at) == U16(c, at) && U16(b, at + 2) == U16(c, at + 2) && Asked(b, at + 4, n - 1) == Asked(c, at + 4, n - 1)
    ensures Asked(b, off, n) == Asked(c, off, n)
  {
    hide Labels, U16;
  }
}
