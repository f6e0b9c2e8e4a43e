// The JSON nesting pre-scan, against the nesting depth of the document.

module JsonDepth {
  import opened Bytes

  const QUOTE: Byte := 0x22
  const BACKSLASH: Byte := 0x5C

  predicate Opens(b: Byte) { b == 0x7B || b == 0x5B }
  predicate Closes(b: Byte) { b == 0x7D || b == 0x5D }

  function Max(a: nat, b: nat): nat { if a < b then b else a }

  // ---------------------------------------------------------------------------------------------
  // The scanner

  datatype Scan = Scan(depth: nat, inString: bool, escaped: bool)

  function Step(st: Scan, b: Byte): Scan
  {
    if st.inString then
      if st.escaped then st.(escaped := false)
      else if b == BACKSLASH then st.(escaped := true)
      else if b == QUOTE then st.(inString := false)
      else st
    else if b == QUOTE then st.(inString := true)
    else if Opens(b) then st.(depth := st.depth + 1)
    else if Closes(b) then st.(depth := if st.depth == 0 then 0 else st.depth - 1)
    else st
  }

  function Run(st: Scan, s: Bytes): Scan
  {
    if s == [] then st else Step(Run(st, s[..|s| - 1]), s[|s| - 1])
  }

  /** The greatest depth reached anywhere in a scan of all of `s`. */
  function Peak(st: Scan, s: Bytes): nat
  {
    if s == [] then st.depth else Max(Peak(st, s[..|s| - 1]), Run(st, s).depth)
  }

  const START := Scan(0, false, false)

  /** `exceeds_max_depth`: leaves the scan early exactly when a full scan would go beyond `max`. */
  method ExceedsMaxDepth(bytes: Bytes, max: nat) returns (r: bool)
    ensures r <==> Peak(START, bytes) > max
  {
    var depth: nat, inString, escaped := 0, false, false;
    for i := 0 to |bytes|
      invariant Scan(depth, inString, escaped) == Run(START, bytes[..i])
      invariant Peak(START, bytes[..i]) <= max
    {
      var b := bytes[i];
      assert bytes[..i + 1][..i] == bytes[..i];
      if inString {
        if escaped {
          escaped := false;
        } else if b == BACKSLASH {
          escaped := true;
        } else if b == QUOTE {
          inString := false;
        }
      } else if b == QUOTE {
        inString := true;
      } else if Opens(b) {
        depth := depth + 1;
        if depth > max {
          PeakOfPrefix(START, bytes, i + 1);
          return true;
        }
      } else if Closes(b) {
        depth := if depth == 0 then 0 else depth - 1;
      }
      DepthBelowPeak(START, bytes[..i]);
    }
    assert bytes[..|bytes|] == bytes;
    r := false;
  }

  lemma DepthBelowPeak(st: Scan, s: Bytes)
    ensures Run(st, s).depth <= Peak(st, s)
  {
  }

  lemma {:induction false} PeakOfPrefix(st: Scan, s: Bytes, n: nat)
    requires n <= |s|
    ensures Peak(st, s[..n]) <= Peak(st, s)
    decreases |s|
  {
    if n == |s| {
      assert s[..n] == s;
    } else {
      PeakOfPrefix(st, s[..|s| - 1], n);
      assert s[..|s| - 1][..n] == s[..n];
    }
  }

  lemma {:induction false} RunAppend(st: Scan, a: Bytes, b: Bytes)
    ensures Run(st, a + b) == Run(Run(st, a), b)
    ensures Peak(st, a + b) == Max(Peak(st, a), Peak(Run(st, a), b))
    decreases |b|
  {
    if b == [] {
      assert a + b == a;
      DepthBelowPeak(st, a);
    } else {
      var front := b[..|b| - 1];
      RunAppend(st, a, front);
      assert (a + b)[..|a + b| - 1] == a + front;
    }
  }

  // ---------------------------------------------------------------------------------------------
  // JSON text (RFC 8259, sections 2 to 7), with every choice of whitespace and escape in the tree

  type Space = s: Bytes | forall i | 0 <= i < |s| :: s[i] in {0x20, 0x09, 0x0A, 0x0D} witness []

  /** A letter, digit, sign or point: what `null`, `true`, `false` and the numbers are written with. */
  predicate ScalarByte(b: Byte)
  {
    0x30 <= b <= 0x39 || 0x41 <= b <= 0x5A || 0x61 <= b <= 0x7A || b in {0x2B, 0x2D, 0x2E}
  }

  type ScalarText = s: Bytes | forall i | 0 <= i < |s| :: ScalarByte(s[i]) witness []

  /** A byte that may stand in a string unescaped. */
  type RawByte = b: Byte | b >= 0x20 && b != QUOTE && b != BACKSLASH witness 0x20

  /** What may follow a backslash: one of eight characters, or `u` and four hexadecimal digits. */
  type EscapedByte = c: Byte | c in {QUOTE, BACKSLASH, 0x2F, 0x62, 0x66, 0x6E, 0x72, 0x74} witness 0x2F
  type FourDigits = s: ScalarText | |s| == 4 witness [0x30, 0x30, 0x30, 0x30]

  datatype Piece = Raw(b: RawByte) | Escape(c: EscapedByte) | Hex(digits: FourDigits)

  datatype Json =
    | Scalar(text: ScalarText)
    | Str(pieces: seq<Piece>)
    | EmptyArray(inside: Space)
    | Array(elements: Elements)
    | EmptyObject(inside: Space)
    | Object(members: Members)

  datatype Elements =
    | Element(before: Space, value: Json, after: Space)
    | Elements(before: Space, value: Json, after: Space, more: Elements)

  datatype Members =
    | Member(beforeKey: Space, key: seq<Piece>, afterKey: Space, before: Space, value: Json, after: Space)
    | Members(beforeKey: Space, key: seq<Piece>, afterKey: Space, before: Space, value: Json, after: Space, more: Members)

  function Depth(v: Json): nat
  {
    match v
    case Scalar(_) => 0
    case Str(_) => 0
    case EmptyArray(_) => 1
    case EmptyObject(_) => 1
    case Array(es) => 1 + DepthOfElements(es)
    case Object(ms) => 1 + DepthOfMembers(ms)
  }

  function DepthOfElements(es: Elements): nat
  {
    match es
    case Element(_, v, _) => Depth(v)
    case Elements(_, v, _, more) => Max(Depth(v), DepthOfElements(more))
  }

  function DepthOfMembers(ms: Members): nat
  {
    match ms
    case Member(_, _, _, _, v, _) => Depth(v)
    case Members(_, _, _, _, v, _, more) => Max(Depth(v), DepthOfMembers(more))
  }

  function RenderPiece(p: Piece): Bytes
  {
    match p
    case Raw(b) => [b]
    case Escape(c) => [BACKSLASH, c]
    case Hex(digits) => [BACKSLASH, 0x75] + digits
  }

  function RenderPieces(ps: seq<Piece>): Bytes
  {
    if ps == [] then [] else RenderPiece(ps[0]) + RenderPieces(ps[1..])
  }

  function RenderStr(ps: seq<Piece>): Bytes { [QUOTE] + RenderPieces(ps) + [QUOTE] }

  function Render(v: Json): Bytes
  {
    match v
    case Scalar(text) => text
    case Str(ps) => RenderStr(ps)
    case EmptyArray(ws) => [0x5B] + ws + [0x5D]
    case EmptyObject(ws) => [0x7B] + ws + [0x7D]
    case Array(es) => [0x5B] + RenderElements(es) + [0x5D]
    case Object(ms) => [0x7B] + RenderMembers(ms) + [0x7D]
  }

  function RenderElements(es: Elements): Bytes
  {
    match es
    case Element(b, v, a) => b + Render(v) + a
    case Elements(b, v, a, more) => b + Render(v) + a + [0x2C] + RenderElements(more)
  }

  function RenderKey(bk: Space, key: seq<Piece>, ak: Space): Bytes { bk + RenderStr(key) + ak + [0x3A] }

  function RenderMembers(ms: Members): Bytes
  {
    match ms
    case Member(bk, key, ak, b, v, a) => RenderKey(bk, key, ak) + b + Render(v) + a
    case Members(bk, key, ak, b, v, a, more) => RenderKey(bk, key, ak) + b + Render(v) + a + [0x2C] + RenderMembers(more)
  }

  // ---------------------------------------------------------------------------------------------
  // Exactness

  /** From any depth, outside a string, `s` comes back to that depth and rises `k` above it on the way. */
  ghost predicate Balanced(s: Bytes, k: nat)
  {
    forall d: nat :: Run(Scan(d, false, false), s) == Scan(d, false, false) && Peak(Scan(d, false, false), s) == d + k
  }

  lemma Sequence(a: Bytes, i: nat, b: Bytes, j: nat)
    requires Balanced(a, i) && Balanced(b, j)
    ensures Balanced(a + b, Max(i, j))
  {
    forall d: nat
      ensures Run(Scan(d, false, false), a + b) == Scan(d, false, false)
      ensures Peak(Scan(d, false, false), a + b) == d + Max(i, j)
    {
      RunAppend(Scan(d, false, false), a, b);
    }
  }

  lemma RunOne(st: Scan, b: Byte)
    ensures Run(st, [b]) == Step(st, b) && Peak(st, [b]) == Max(st.depth, Step(st, b).depth)
  {
    assert [b][..0] == [];
    assert Run(st, []) == st && Peak(st, []) == st.depth;
  }

  lemma Bracketed(left: Byte, s: Bytes, k: nat, right: Byte)
    requires Opens(left) && Closes(right) && Balanced(s, k)
    ensures Balanced([left] + s + [right], k + 1)
  {
    forall d: nat
      ensures Run(Scan(d, false, false), [left] + s + [right]) == Scan(d, false, false)
      ensures Peak(Scan(d, false, false), [left] + s + [right]) == d + k + 1
    {
      RunAppend(Scan(d, false, false), [left] + s, [right]);
      RunAppend(Scan(d, false, false), [left], s);
      RunOne(Scan(d, false, false), left);
      RunOne(Scan(d + 1, false, false), right);
    }
  }

  predicate Quiet(b: Byte) { b != QUOTE && !Opens(b) && !Closes(b) }

  lemma {:induction false} QuietIsBalanced(s: Bytes)
    requires forall i | 0 <= i < |s| :: Quiet(s[i])
    ensures Balanced(s, 0)
  {
    if s != [] {
      QuietIsBalanced(s[..|s| - 1]);
    }
  }

  lemma {:induction false} InsideString(ps: seq<Piece>, d: nat)
    ensures Run(Scan(d, true, false), RenderPieces(ps)) == Scan(d, true, false)
    ensures Peak(Scan(d, true, false), RenderPieces(ps)) == d
  {
    var st := Scan(d, true, false);
    if ps != [] {
      InsidePiece(ps[0], d);
      InsideString(ps[1..], d);
      RunAppend(st, RenderPiece(ps[0]), RenderPieces(ps[1..]));
    }
  }

  lemma InsidePiece(p: Piece, d: nat)
    ensures Run(Scan(d, true, false), RenderPiece(p)) == Scan(d, true, false)
    ensures Peak(Scan(d, true, false), RenderPiece(p)) == d
  {
    var st := Scan(d, true, false);
    match p {
      case Raw(b) =>
        RunOne(st, b);
      case Escape(c) =>
        EscapeRuns(d, c);
      case Hex(digits) =>
        EscapeRuns(d, 0x75);
        DigitsRun(d, digits);
        RunAppend(st, [BACKSLASH, 0x75], digits);
    }
  }

  lemma EscapeRuns(d: nat, c: Byte)
    ensures Run(Scan(d, true, false), [BACKSLASH, c]) == Scan(d, true, false)
    ensures Peak(Scan(d, true, false), [BACKSLASH, c]) == d
  {
    RunAppend(Scan(d, true, false), [BACKSLASH], [c]);
    assert [BACKSLASH] + [c] == [BACKSLASH, c];
    RunOne(Scan(d, true, false), BACKSLASH);
    RunOne(Scan(d, true, true), c);
  }

  lemma {:induction false} DigitsRun(d: nat, s: ScalarText)
    ensures Run(Scan(d, true, false), s) == Scan(d, true, false) && Peak(Scan(d, true, false), s) == d
  {
    if s != [] {
      DigitsRun(d, s[..|s| - 1]);
    }
  }

  lemma StringIsBalanced(ps: seq<Piece>)
    ensures Balanced(RenderStr(ps), 0)
  {
    forall d: nat
      ensures Run(Scan(d, false, false), RenderStr(ps)) == Scan(d, false, false)
      ensures Peak(Scan(d, false, false), RenderStr(ps)) == d
    {
      RunAppend(Scan(d, false, false), [QUOTE] + RenderPieces(ps), [QUOTE]);
      RunAppend(Scan(d, false, false), [QUOTE], RenderPieces(ps));
      RunOne(Scan(d, false, false), QUOTE);
      InsideString(ps, d);
      RunOne(Scan(d, true, false), QUOTE);
    }
  }

  lemma Padded(before: Space, s: Bytes, k: nat, after: Space)
    requires Balanced(s, k)
    ensures Balanced(before + s + after, k)
  {
    QuietIsBalanced(before);
    QuietIsBalanced(after);
    Sequence(before, 0, s, k);
    Sequence(before + s, k, after, 0);
  }

  lemma {:induction false} RenderIsBalanced(v: Json)
    ensures Balanced(Render(v), Depth(v))
  {
    match v {
      case Scalar(text) =>
        QuietIsBalanced(text);
      case Str(ps) =>
        StringIsBalanced(ps);
      case EmptyArray(ws) =>
        QuietIsBalanced(ws);
        Bracketed(0x5B, ws, 0, 0x5D);
      case EmptyObject(ws) =>
        QuietIsBalanced(ws);
        Bracketed(0x7B, ws, 0, 0x7D);
      case Array(es) =>
        ElementsAreBalanced(es);
        Bracketed(0x5B, RenderElements(es), DepthOfElements(es), 0x5D);
      case Object(ms) =>
        MembersAreBalanced(ms);
        Bracketed(0x7B, RenderMembers(ms), DepthOfMembers(ms), 0x7D);
    }
  }

  lemma {:induction false} ElementsAreBalanced(es: Elements)
    ensures Balanced(RenderElements(es), DepthOfElements(es))
  {
    RenderIsBalanced(es.value);
    Padded(es.before, Render(es.value), Depth(es.value), es.after);
    if es.Elements? {
      var first := es.before + Render(es.value) + es.after;
      Separated(first, Depth(es.value), 0x2C);
      ElementsAreBalanced(es.more);
      Sequence(first + [0x2C], Depth(es.value), RenderElements(es.more), DepthOfElements(es.more));
    }
  }

  lemma Separated(s: Bytes, k: nat, separator: Byte)
    requires Balanced(s, k) && Quiet(separator)
    ensures Balanced(s + [separator], k)
  {
    QuietIsBalanced([separator]);
    Sequence(s, k, [separator], 0);
  }

  lemma {:induction false} MembersAreBalanced(ms: Members)
    ensures Balanced(RenderMembers(ms), DepthOfMembers(ms))
  {
    StringIsBalanced(ms.key);
    Padded(ms.beforeKey, RenderStr(ms.key), 0, ms.afterKey);
    Separated(ms.beforeKey + RenderStr(ms.key) + ms.afterKey, 0, 0x3A);
    RenderIsBalanced(ms.value);
    var key, k := RenderKey(ms.beforeKey, ms.key, ms.afterKey), Depth(ms.value);
    QuietIsBalanced(ms.before);
    QuietIsBalanced(ms.after);
    Sequence(key, 0, ms.before, 0);
    Sequence(key + ms.before, 0, Render(ms.value), k);
    var first := key + ms.before + Render(ms.value) + ms.after;
    Sequence(key + ms.before + Render(ms.value), k, ms.after, 0);
    if ms.Members? {
      Separated(first, k, 0x2C);
      MembersAreBalanced(ms.more);
      Sequence(first + [0x2C], k, RenderMembers(ms.more), DepthOfMembers(ms.more));
    }
  }

  /** On JSON text, the scan measures exactly the nesting depth of the document. */
  lemma ScanMeasuresDepth(before: Space, v: Json, after: Space)
    ensures Peak(START, before + Render(v) + after) == Depth(v)
  {
    RenderIsBalanced(v);
    Padded(before, Render(v), Depth(v), after);
  }

  /** Closing brackets with nothing open are as good as absent. */
  lemma {:induction false} StrayClosersAreIgnored(closers: Bytes, s: Bytes)
    requires forall i | 0 <= i < |closers| :: closers[i] in {0x7D, 0x5D}
    ensures Peak(START, closers + s) == Peak(START, s) && Run(START, closers + s) == Run(START, s)
  {
    RunAppend(START, closers, s);
    ClosersAtZero(closers);
    DepthBelowPeak(START, []);
    PeakOfPrefix(START, s, 0);
    assert s[..0] == [];
  }

  lemma {:induction false} ClosersAtZero(closers: Bytes)
    requires forall i | 0 <= i < |closers| :: closers[i] in {0x7D, 0x5D}
    ensures Run(START, closers) == START && Peak(START, closers) == 0
  {
    if closers != [] {
      ClosersAtZero(closers[..|closers| - 1]);
    }
  }

  /** A body that is too deep stays too deep whatever bytes follow it. */
  lemma RejectionIsFinal(a: Bytes, b: Bytes)
    ensures Peak(START, a) <= Peak(START, a + b)
  {
    RunAppend(START, a, b);
  }
}
