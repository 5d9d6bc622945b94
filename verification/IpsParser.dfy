/** ips_parser.cpp: reading a dotted quad. */
module IpsParser {
  import opened Words

  predicate IsSpace(c: char) {
    c in {' ', '\t', '\n', '\r', '\U{000B}', '\U{000C}'}
  }

  predicate IsDigit(c: char) {
    '0' <= c <= '9'
  }

  const INVALID: uint32 := 0xFFFF_FFFF

  // ---------------------------------------------------------------- one component

  ghost predicate AllSpace(s: string) {
    forall i :: 0 <= i < |s| ==> IsSpace(s[i])
  }

  ghost predicate AllDigits(s: string) {
    forall i :: 0 <= i < |s| ==> IsDigit(s[i])
  }

  function Digit(c: char): nat
    requires IsDigit(c)
  {
    c as int - '0' as int
  }

  /** The decimal value of a string of digits. */
  ghost function Number(s: string): nat
    requires AllDigits(s)
  {
    if s == [] then 0 else 10 * Number(s[..|s| - 1]) + Digit(s[|s| - 1])
  }

  ghost predicate Around(s: string, pre: string, core: string, post: string) {
    s == pre + core + post && AllSpace(pre) && AllSpace(post)
  }

  /** `s` is `core` between whitespace, and `core` itself neither starts nor ends with whitespace. */
  ghost predicate TrimsTo(s: string, core: string) {
    && (exists pre, post :: Around(s, pre, core, post))
    && (core != [] ==> !IsSpace(core[0]) && !IsSpace(core[|core| - 1]))
  }

  /** The number a component stands for, when it is one to three digits between whitespace. */
  ghost predicate Reads(s: string, n: nat) {
    exists core :: TrimsTo(s, core) && 1 <= |core| <= 3 && AllDigits(core) && Number(core) == n
  }

  /** A character that is not whitespace lies in the trimmed part. */
  lemma NotSpaceInside(s: string, p: int, pre: string, core: string, post: string)
    requires 0 <= p < |s| && !IsSpace(s[p]) && Around(s, pre, core, post)
    ensures |pre| <= p < |pre| + |core|
    ensures core[p - |pre|] == s[p]
  {
    assert forall q :: 0 <= q < |pre| ==> s[q] == pre[q];
    assert forall q :: |pre| + |core| <= q < |s| ==> s[q] == post[q - |pre| - |core|];
  }

  lemma TrimInside(s: string, a: string, core: string, b: string, c: string, other: string, d: string)
    requires Around(s, a, core, b) && Around(s, c, other, d)
    requires core != [] && !IsSpace(core[0]) && !IsSpace(core[|core| - 1])
    ensures |c| <= |a| && |a| + |core| <= |c| + |other|
  {
    assert s[|a|] == core[0] && s[|a| + |core| - 1] == core[|core| - 1];
    NotSpaceInside(s, |a|, c, other, d);
    NotSpaceInside(s, |a| + |core| - 1, c, other, d);
  }

  lemma TrimUnique(s: string, core: string, other: string)
    requires TrimsTo(s, core) && TrimsTo(s, other)
    ensures core == other
  {
    var a, b :| Around(s, a, core, b);
    var c, d :| Around(s, c, other, d);
    if core != [] {
      TrimInside(s, a, core, b, c, other, d);
    }
    if other != [] {
      TrimInside(s, c, other, d, a, core, b);
    }
    if core != [] {
      assert core == s[|a|..|a| + |core|] && other == s[|c|..|c| + |other|];
    }
  }

  lemma ReadsUnique(s: string, m: nat, n: nat)
    requires Reads(s, m) && Reads(s, n)
    ensures m == n
  {
    var a :| TrimsTo(s, a) && 1 <= |a| <= 3 && AllDigits(a) && Number(a) == m;
    var b :| TrimsTo(s, b) && 1 <= |b| <= 3 && AllDigits(b) && Number(b) == n;
    TrimUnique(s, a, b);
  }

  method Atoi3(s: string) returns (r: uint32)
    ensures r == INVALID <==> !(1 <= |s| <= 3 && AllDigits(s))
    ensures r != INVALID ==> r == Number(s)
  {
    if |s| == 0 || |s| >= 4 {
      return INVALID;
    }
    var pow10 := [1, 10, 100];
    var cur := 0;
    for j := 0 to |s|
      invariant AllDigits(s[..j])
      invariant cur == Number(s[..j]) * (if j == |s| then 1 else 10 * pow10[|s| - j - 1])
      invariant Number(s[..j]) < 10 || j > 1
      invariant Number(s[..j]) < 100 || j > 2
      invariant Number(s[..j]) < 1000
      invariant j == 0 ==> Number(s[..j]) == 0
    {
      var c := s[j];
      if c < '0' || c > '9' {
        return INVALID;
      }
      assert s[..j + 1][..j] == s[..j];
      cur := cur + Digit(c) * pow10[|s| - j - 1];
    }
    assert s[..|s|] == s;
    return cur;
  }

  method Atoi3Trim(s: string) returns (r: uint32)
    ensures r == INVALID <==> !exists n :: Reads(s, n)
    ensures r != INVALID ==> Reads(s, r)
  {
    if |s| == 0 {
      NothingReads(s, []);
      return INVALID;
    }
    var i := 0;
    while i < |s| && IsSpace(s[i])
      invariant i <= |s| && AllSpace(s[..i])
    {
      assert s[..i + 1] == s[..i] + [s[i]];
      i := i + 1;
    }
    var end := |s|;
    while end - 1 > i && IsSpace(s[end - 1])
      invariant i <= end <= |s| && AllSpace(s[end..])
      invariant i < |s| ==> i < end
    {
      assert s[end - 1..] == [s[end - 1]] + s[end..];
      end := end - 1;
    }
    var core := s[i..end];
    assert Around(s, s[..i], core, s[end..]);
    assert TrimsTo(s, core);
    r := Atoi3(core);
    if r == INVALID {
      NothingReads(s, core);
    } else {
      assert Reads(s, r);
    }
  }

  lemma NothingReads(s: string, core: string)
    requires TrimsTo(s, core) || (s == [] && core == [])
    requires !(1 <= |core| <= 3 && AllDigits(core))
    ensures !exists n :: Reads(s, n)
  {
    if s == [] {
      assert Around(s, [], core, []);
    }
    forall n | Reads(s, n)
      ensures false
    {
      var c :| TrimsTo(s, c) && 1 <= |c| <= 3 && AllDigits(c) && Number(c) == n;
      TrimUnique(s, core, c);
    }
  }

  lemma TrimsAfterSpace(lead: string, s: string, core: string)
    requires AllSpace(lead) && TrimsTo(s, core)
    ensures TrimsTo(lead + s, core)
  {
    var pre, post :| Around(s, pre, core, post);
    assert lead + s == (lead + pre) + core + post;
    assert Around(lead + s, lead + pre, core, post);
  }

  lemma TrimsBeforeSpace(lead: string, s: string, core: string)
    requires AllSpace(lead) && TrimsTo(lead + s, core) && core != []
    ensures TrimsTo(s, core)
  {
    var t := lead + s;
    var pre, post :| Around(t, pre, core, post);
    assert forall q :: 0 <= q < |lead| ==> t[q] == lead[q];
    assert t[|pre|] == core[0];
    var rest := pre[|lead|..];
    assert s == t[|lead|..] && t == pre + (core + post);
    assert s == rest + core + post;
    assert Around(s, rest, core, post);
  }

  /** Leading whitespace does not matter. */
  lemma ReadsAfterSpace(lead: string, s: string, n: nat)
    requires AllSpace(lead)
    ensures Reads(lead + s, n) <==> Reads(s, n)
  {
    if Reads(s, n) {
      var core :| TrimsTo(s, core) && 1 <= |core| <= 3 && AllDigits(core) && Number(core) == n;
      TrimsAfterSpace(lead, s, core);
    }
    if Reads(lead + s, n) {
      var core :| TrimsTo(lead + s, core) && 1 <= |core| <= 3 && AllDigits(core) && Number(core) == n;
      TrimsBeforeSpace(lead, s, core);
    }
  }

  /** Nothing but digits and whitespace can be read. */
  lemma ReadsOnlyDigits(s: string, p: nat, n: nat)
    requires p < |s| && Reads(s, n)
    ensures IsDigit(s[p]) || IsSpace(s[p])
  {
    var core :| TrimsTo(s, core) && 1 <= |core| <= 3 && AllDigits(core) && Number(core) == n;
    var pre, post :| Around(s, pre, core, post);
    if !IsSpace(s[p]) {
      NotSpaceInside(s, p, pre, core, post);
    }
  }

  // ---------------------------------------------------------------- the pieces between dots

  ghost function Pieces(s: string): (p: seq<string>)
    ensures |p| >= 1
  {
    if s == [] then [[]]
    else
      var p := Pieces(s[..|s| - 1]);
      if s[|s| - 1] == '.' then p + [[]] else p[..|p| - 1] + [p[|p| - 1] + [s[|s| - 1]]]
  }

  /** Reading on only extends the last piece and adds pieces; a dot closes the last piece for good. */
  lemma {:induction false} PiecesGrow(s: string, i: nat, n: nat)
    requires i <= n <= |s|
    ensures var p, q := Pieces(s[..i]), Pieces(s[..n]);
      && |p| <= |q| && p[..|p| - 1] == q[..|p| - 1] && p[|p| - 1] <= q[|p| - 1]
      && (i < n && s[i] == '.' ==> |p| < |q| && p[|p| - 1] == q[|p| - 1])
  {
    if i < n {
      PiecesGrow(s, i, n - 1);
      assert s[..n][..n - 1] == s[..n - 1] && s[..n][n - 1] == s[n - 1];
    }
  }

  lemma {:induction false} NoDotOnePiece(s: string)
    requires '.' !in s
    ensures Pieces(s) == [s]
  {
    if s != [] {
      var t := s[..|s| - 1];
      assert s == t + [s[|s| - 1]];
      NoDotOnePiece(t);
    }
  }

  lemma AppendPiece<T>(p: seq<T>, q: seq<T>, x: T)
    requires |q| >= 1
    ensures var u := p + q; |u| >= 1 && u + [x] == p + (q + [x])
    ensures var u := p + q; u[|u| - 1] == q[|q| - 1] && u[..|u| - 1] + [x] == p + (q[..|q| - 1] + [x])
  {
    var u := p + q;
    assert u[..|u| - 1] == p + q[..|q| - 1];
  }

  lemma PiecesSnoc(s: string, c: char)
    ensures var p := Pieces(s);
            Pieces(s + [c]) == if c == '.' then p + [[]] else p[..|p| - 1] + [p[|p| - 1] + [c]]
  {
    assert (s + [c])[..|s|] == s;
  }

  lemma PiecesEmpty()
    ensures Pieces([]) == [[]]
  {
  }

  lemma JoinStep(s: string, t: string, c: char)
    requires Pieces(s + "." + t) == Pieces(s) + Pieces(t)
    ensures Pieces(s + "." + (t + [c])) == Pieces(s) + Pieces(t + [c])
  {
    hide Pieces;
    var p, q := Pieces(s), Pieces(t);
    assert s + "." + (t + [c]) == (s + "." + t) + [c];
    PiecesSnoc(s + "." + t, c);
    PiecesSnoc(t, c);
    AppendPiece(p, q, if c == '.' then [] else q[|q| - 1] + [c]);
  }

  lemma {:induction false} PiecesJoin(s: string, t: string)
    ensures Pieces(s + "." + t) == Pieces(s) + Pieces(t)
  {
    hide Pieces;
    if t == [] {
      PiecesEmpty();
      PiecesSnoc(s, '.');
      assert s + "." + t == s + ['.'];
    } else {
      var n := |t| - 1;
      PiecesJoin(s, t[..n]);
      JoinStep(s, t[..n], t[n]);
      assert t[..n] + [t[n]] == t;
    }
  }

  // ---------------------------------------------------------------- addresses

  function Unit(k: nat): nat
    requires k < 4
  {
    if k == 0 then 0x100_0000 else if k == 1 then 0x1_0000 else if k == 2 then 0x100 else 1
  }

  ghost predicate Bytes(c: seq<nat>) {
    |c| <= 4 && forall k :: 0 <= k < |c| ==> c[k] <= 0xFF
  }

  /** The most significant component comes first. */
  ghost function Assemble(c: seq<nat>): nat
    requires |c| <= 4
  {
    if c == [] then 0 else Assemble(c[..|c| - 1]) + c[|c| - 1] * Unit(|c| - 1)
  }

  lemma AssembleBound(c: seq<nat>)
    requires Bytes(c)
    ensures c == [] ==> Assemble(c) == 0
    ensures c != [] ==> Assemble(c) + Unit(|c| - 1) <= WORD
  {
    if |c| > 1 {
      AssembleBound(c[..|c| - 1]);
    } else if |c| == 1 {
      assert Assemble(c[..0]) == 0;
    }
  }

  /** `s` has at most four pieces and more than `minDots`, each reading as a byte of `c`. */
  ghost predicate IsQuad(s: string, minDots: nat, c: seq<nat>) {
    && |c| == |Pieces(s)| && minDots < |c| && Bytes(c)
    && forall k :: 0 <= k < |c| ==> Reads(Pieces(s)[k], c[k])
  }

  ghost predicate NoQuad(s: string, minDots: nat) {
    forall c :: !IsQuad(s, minDots, c)
  }

  lemma QuadUnique(s: string, m: nat, n: nat, c: seq<nat>, d: seq<nat>)
    requires IsQuad(s, m, c) && IsQuad(s, n, d)
    ensures c == d
  {
    forall k | 0 <= k < |c|
      ensures c[k] == d[k]
    {
      ReadsUnique(Pieces(s)[k], c[k], d[k]);
    }
  }

  /** What the loop has read before position `i`: the closed components, and the open piece from `start`. */
  ghost predicate ReadSoFar(s: string, i: nat, start: nat, c: seq<nat>, lead: string) {
    && start <= i <= |s| && AllSpace(lead) && Bytes(c)
    && |Pieces(s[..i])| == |c| + 1
    && Pieces(s[..i])[|c|] == lead + s[start..i]
    && forall k :: 0 <= k < |c| ==> Reads(Pieces(s[..i])[k], c[k])
  }

  lemma ReadStart(s: string, i: nat)
    requires i <= |s| && AllSpace(s[..i])
    ensures ReadSoFar(s, i, i, [], s[..i])
  {
    assert forall q :: 0 <= q < i ==> IsSpace(s[..i][q]);
    NoDotOnePiece(s[..i]);
    assert s[..i] + s[i..i] == s[..i];
  }

  lemma ReadOn(s: string, i: nat, start: nat, c: seq<nat>, lead: string)
    requires ReadSoFar(s, i, start, c, lead) && i < |s| && s[i] != '.'
    ensures ReadSoFar(s, i + 1, start, c, lead)
  {
    assert s[..i + 1][..i] == s[..i] && s[..i + 1][i] == s[i];
    assert lead + s[start..i] + [s[i]] == lead + s[start..i + 1];
    var p := Pieces(s[..i]);
    assert forall k :: 0 <= k < |c| ==> p[..|p| - 1][k] == p[k];
  }

  lemma ReadDot(s: string, i: nat, start: nat, c: seq<nat>, lead: string, n: nat)
    requires ReadSoFar(s, i, start, c, lead) && i < |s| && s[i] == '.'
    requires |c| < 4 && n <= 0xFF && Reads(s[start..i], n)
    ensures ReadSoFar(s, i + 1, i + 1, c + [n], [])
  {
    hide Reads;
    assert s[..i + 1][..i] == s[..i] && s[..i + 1][i] == s[i];
    ReadsAfterSpace(lead, s[start..i], n);
    assert Pieces(s[..i + 1]) == Pieces(s[..i]) + [[]];
    assert [] + s[i + 1..i + 1] == [];
  }

  lemma ReadEnd(s: string, start: nat, c: seq<nat>, lead: string, n: nat, minDots: nat)
    requires ReadSoFar(s, |s|, start, c, lead)
    requires |c| < 4 && n <= 0xFF && Reads(s[start..|s|], n)
    ensures minDots <= |c| ==> IsQuad(s, minDots, c + [n])
    ensures minDots > |c| ==> NoQuad(s, minDots)
  {
    assert s[..|s|] == s;
    ReadsAfterSpace(lead, s[start..|s|], n);
  }

  /** A fifth piece or a piece that is no byte makes the whole string unreadable. */
  lemma BadPiece(s: string, i: nat, start: nat, c: seq<nat>, lead: string, minDots: nat, d: seq<nat>)
    requires ReadSoFar(s, i, start, c, lead) && (i == |s| || s[i] == '.')
    requires |c| == 4 || forall n :: Reads(s[start..i], n) ==> n > 0xFF
    ensures !IsQuad(s, minDots, d)
  {
    hide Reads;
    hide Pieces;
    assert s[..|s|] == s;
    PiecesGrow(s, i, |s|);
    if IsQuad(s, minDots, d) && |c| < 4 {
      assert Reads(Pieces(s)[|c|], d[|c|]);
      ReadsAfterSpace(lead, s[start..i], d[|c|]);
    }
  }

  /** So does a stray character. */
  lemma BadCharacter(s: string, i: nat, start: nat, c: seq<nat>, lead: string, minDots: nat, d: seq<nat>)
    requires ReadSoFar(s, i, start, c, lead) && i < |s| && s[i] != '.' && !IsDigit(s[i]) && !IsSpace(s[i])
    ensures !IsQuad(s, minDots, d)
  {
    hide Reads;
    hide Pieces;
    assert s[..|s|] == s;
    ReadOn(s, i, start, c, lead);
    PiecesGrow(s, i + 1, |s|);
    var open, piece := lead + s[start..i + 1], Pieces(s)[|c|];
    var at := |lead| + i - start;
    assert open <= piece && open[at] == s[i] == piece[at];
    if IsQuad(s, minDots, d) {
      assert Reads(piece, d[|c|]);
      ReadsOnlyDigits(piece, at, d[|c|]);
    }
  }

  lemma EmptyReadsNothing(n: nat)
    ensures !Reads([], n)
  {
  }

  lemma OnlySpace(s: string, minDots: nat, d: seq<nat>)
    requires AllSpace(s)
    ensures !IsQuad(s, minDots, d)
  {
    assert s[..|s|] == s;
    ReadStart(s, |s|);
    assert s[|s|..|s|] == [];
    forall n: nat
      ensures !Reads([], n)
    {
      EmptyReadsNothing(n);
    }
    BadPiece(s, |s|, |s|, [], s, minDots, d);
  }

  /** What the loop knows: before the end, how far it has read; after it, the outcome. */
  ghost predicate LoopState(s: string, i: nat, start: nat, c: seq<nat>, lead: string, minDots: nat, ret: nat) {
    && Bytes(c) && ret == Assemble(c)
    && (i <= |s| ==> ReadSoFar(s, i, start, c, lead))
    && (i == |s| + 1 ==> if minDots < |c| then IsQuad(s, minDots, c) else NoQuad(s, minDots))
  }

  lemma CloseComponent(s: string, i: nat, start: nat, c: seq<nat>, lead: string, minDots: nat, ret: nat, n: nat)
    requires LoopState(s, i, start, c, lead, minDots, ret) && i <= |s| && (i == |s| || s[i] == '.')
    requires |c| < 4 && n <= 0xFF && Reads(s[start..i], n)
    ensures ret + n * Unit(|c|) < WORD
    ensures LoopState(s, i + 1, i + 1, c + [n], [], minDots, ret + n * Unit(|c|))
  {
    hide Reads;
    hide Pieces;
    assert (c + [n])[..|c|] == c;
    if i < |s| {
      ReadDot(s, i, start, c, lead, n);
    } else {
      ReadEnd(s, start, c, lead, n, minDots);
    }
    AssembleBound(c + [n]);
  }

  lemma KeepReading(s: string, i: nat, start: nat, c: seq<nat>, lead: string, minDots: nat, ret: nat)
    requires LoopState(s, i, start, c, lead, minDots, ret) && i < |s| && s[i] != '.'
    ensures LoopState(s, i + 1, start, c, lead, minDots, ret)
  {
    ReadOn(s, i, start, c, lead);
  }

  lemma GiveUp(s: string, i: nat, start: nat, c: seq<nat>, lead: string, minDots: nat, ret: nat)
    requires LoopState(s, i, start, c, lead, minDots, ret) && i <= |s|
    requires if i == |s| || s[i] == '.' then |c| == 4 || forall n :: Reads(s[start..i], n) ==> n > 0xFF
             else !IsDigit(s[i]) && !IsSpace(s[i])
    ensures NoQuad(s, minDots)
  {
    forall d
      ensures !IsQuad(s, minDots, d)
    {
      if i == |s| || s[i] == '.' {
        BadPiece(s, i, start, c, lead, minDots, d);
      } else {
        BadCharacter(s, i, start, c, lead, minDots, d);
      }
    }
  }

  lemma Outcome(s: string, i: nat, start: nat, c: seq<nat>, lead: string, minDots: nat, ret: nat)
    requires LoopState(s, i, start, c, lead, minDots, ret) && i == |s| + 1
    ensures minDots < |c| <==> !NoQuad(s, minDots)
    ensures forall d :: IsQuad(s, minDots, d) ==> ret == Assemble(d)
  {
    forall d | IsQuad(s, minDots, d)
      ensures d == c
    {
      if minDots < |c| {
        QuadUnique(s, minDots, minDots, c, d);
      }
    }
  }

  lemma SpaceOnly(s: string, minDots: nat)
    requires AllSpace(s)
    ensures NoQuad(s, minDots)
  {
    forall d
      ensures !IsQuad(s, minDots, d)
    {
      OnlySpace(s, minDots, d);
    }
  }

  lemma LoopStart(s: string, i: nat, minDots: nat)
    requires i <= |s| && AllSpace(s[..i])
    ensures LoopState(s, i, i, [], s[..i], minDots, 0)
  {
    ReadStart(s, i);
  }

  lemma ByteRead(s: string, n: nat)
    requires Reads(s, n) && n > 0xFF
    ensures forall m :: Reads(s, m) ==> m > 0xFF
  {
    forall m | Reads(s, m)
      ensures m > 0xFF
    {
      ReadsUnique(s, m, n);
    }
  }

  lemma PrefixSlice(str: string, size: nat, from: nat, to: nat)
    requires from <= to <= size <= |str|
    ensures str[..size][from..to] == str[from..to]
  {
  }

  /** ipv4toi on the first `size` characters; the one after them is looked at too. */
  method Ipv4ToI(str: string, size: nat, minDots: nat) returns (ret: uint32, valid: bool)
    requires size < |str|
    ensures valid <==> exists c :: IsQuad(str[..size], minDots, c)
    ensures forall c :: IsQuad(str[..size], minDots, c) ==> ret == Assemble(c)
  {
    hide Reads;
    hide IsQuad;
    hide LoopState;
    ghost var s := str[..size];
    if size == 0 {
      SpaceOnly(s, minDots);
      return 0, false;
    }
    ret := 0;
    var curIdx := 3;
    var i := 0;
    while i <= size && IsSpace(str[i])
      invariant i <= size + 1
      invariant forall k :: 0 <= k < i ==> IsSpace(str[k])
    {
      i := i + 1;
    }
    if i > size {
      SpaceOnly(s, minDots);
      return ret, curIdx <= 2 - minDots;
    }
    var startIdx := i;
    ghost var c: seq<nat> := [];
    ghost var lead := s[..i];
    LoopStart(s, i, minDots);
    while i <= size
      invariant startIdx <= i <= size + 1 && curIdx == 3 - |c|
      invariant LoopState(s, i, startIdx, c, lead, minDots, ret)
    {
      var ch := str[i];
      if ch == '.' || i == size {
        PrefixSlice(str, size, startIdx, i);
        if curIdx < 0 {
          LengthBound(s, i, startIdx, c, lead, minDots, ret);
          GiveUp(s, i, startIdx, c, lead, minDots, ret);
          return 0, false;
        }
        var curInt := Atoi3Trim(str[startIdx..i]);
        if curInt > 0xFF {
          if curInt != INVALID {
            ByteRead(s[startIdx..i], curInt);
          }
          GiveUp(s, i, startIdx, c, lead, minDots, ret);
          return 0, false;
        }
        CloseComponent(s, i, startIdx, c, lead, minDots, ret, curInt);
        ret := ret + curInt * Unit(3 - curIdx);
        curIdx := curIdx - 1;
        startIdx := i + 1;
        c, lead := c + [curInt], [];
      } else {
        if !IsSpace(ch) && (ch < '0' || ch > '9') {
          GiveUp(s, i, startIdx, c, lead, minDots, ret);
          return 0, false;
        }
        KeepReading(s, i, startIdx, c, lead, minDots, ret);
      }
      i := i + 1;
    }
    Outcome(s, i, startIdx, c, lead, minDots, ret);
    valid := curIdx <= 2 - minDots;
  }

  lemma LengthBound(s: string, i: nat, start: nat, c: seq<nat>, lead: string, minDots: nat, ret: nat)
    requires LoopState(s, i, start, c, lead, minDots, ret)
    ensures |c| <= 4
  {
  }

  // ---------------------------------------------------------------- printing and reading back

  function Character(d: nat): char
    requires d < 10
  {
    '0' + d as char
  }

  /** Decimal, without leading zeros. */
  function Show(n: nat): string {
    if n < 10 then [Character(n)] else Show(n / 10) + [Character(n % 10)]
  }

  lemma {:induction false} ShowReads(n: nat)
    ensures AllDigits(Show(n)) && Number(Show(n)) == n && |Show(n)| >= 1
    ensures n <= 999 ==> |Show(n)| <= 3
    ensures n <= 99 ==> |Show(n)| <= 2
    ensures n <= 9 ==> |Show(n)| <= 1
  {
    if n >= 10 {
      ShowReads(n / 10);
      assert Show(n)[..|Show(n)| - 1] == Show(n / 10);
    } else {
      assert Show(n)[..0] == [];
    }
  }

  lemma PaddedReads(pre: string, n: nat, post: string)
    requires n <= 0xFF && AllSpace(pre) && AllSpace(post)
    ensures Reads(pre + Show(n) + post, n) && '.' !in pre + Show(n) + post
  {
    ShowReads(n);
    var core := Show(n);
    assert Around(pre + core + post, pre, core, post);
    assert IsDigit(core[0]) && IsDigit(core[|core| - 1]);
    assert TrimsTo(pre + core + post, core);
  }

  /** The four components of an address. */
  function Components(addr: uint32): seq<nat> {
    var t := addr / 0x100;
    var u := t / 0x100;
    [u / 0x100, u % 0x100, t % 0x100, addr % 0x100]
  }

  lemma AssembleFour(a: nat, b: nat, c: nat, d: nat)
    ensures Assemble([a, b, c, d]) == a * 0x100_0000 + b * 0x1_0000 + c * 0x100 + d
  {
    assert [a][..0] == [] && [a, b][..1] == [a] && [a, b, c][..2] == [a, b] && [a, b, c, d][..3] == [a, b, c];
    assert Assemble([]) == 0;
    assert Assemble([a]) == a * 0x100_0000;
    assert Assemble([a, b]) == Assemble([a]) + b * 0x1_0000;
    assert Assemble([a, b, c]) == Assemble([a, b]) + c * 0x100;
  }

  lemma ComponentsAssemble(addr: uint32)
    ensures Bytes(Components(addr)) && Assemble(Components(addr)) == addr
  {
    var t := addr / 0x100;
    var u := t / 0x100;
    assert u / 0x100 <= 0xFF;
    AssembleFour(u / 0x100, u % 0x100, t % 0x100, addr % 0x100);
  }

  /** The printed form of an address, with whitespace around each component. */
  ghost function Printed(addr: uint32, pre: seq<string>, post: seq<string>): string
    requires |pre| == 4 && |post| == 4
  {
    var c := Components(addr);
    (pre[0] + Show(c[0]) + post[0]) + "." + ((pre[1] + Show(c[1]) + post[1]) + "."
    + ((pre[2] + Show(c[2]) + post[2]) + "." + (pre[3] + Show(c[3]) + post[3])))
  }

  /** Reading undoes printing: whatever the padding, a printed address reads as itself and as nothing else. */
  lemma PrintedReadsBack(addr: uint32, pre: seq<string>, post: seq<string>)
    requires |pre| == 4 && |post| == 4
    requires forall k :: 0 <= k < 4 ==> AllSpace(pre[k]) && AllSpace(post[k])
    ensures IsQuad(Printed(addr, pre, post), 3, Components(addr)) && Assemble(Components(addr)) == addr
    ensures forall d :: IsQuad(Printed(addr, pre, post), 3, d) ==> Assemble(d) == addr
  {
    hide Reads;
    hide Show;
    hide AllSpace;
    var c := Components(addr);
    ComponentsAssemble(addr);
    var p0, p1 := pre[0] + Show(c[0]) + post[0], pre[1] + Show(c[1]) + post[1];
    var p2, p3 := pre[2] + Show(c[2]) + post[2], pre[3] + Show(c[3]) + post[3];
    PaddedReads(pre[0], c[0], post[0]);
    PaddedReads(pre[1], c[1], post[1]);
    PaddedReads(pre[2], c[2], post[2]);
    PaddedReads(pre[3], c[3], post[3]);
    FourPieces(p0, p1, p2, p3);
    forall d | IsQuad(Printed(addr, pre, post), 3, d)
      ensures d == c
    {
      QuadUnique(Printed(addr, pre, post), 3, 3, c, d);
    }
  }

  lemma FourPieces(a: string, b: string, c: string, d: string)
    requires '.' !in a && '.' !in b && '.' !in c && '.' !in d
    ensures Pieces(a + "." + (b + "." + (c + "." + d))) == [a, b, c, d]
  {
    hide Pieces;
    NoDotOnePiece(a);
    NoDotOnePiece(b);
    NoDotOnePiece(c);
    NoDotOnePiece(d);
    PiecesJoin(c, d);
    PiecesJoin(b, c + "." + d);
    PiecesJoin(a, b + "." + (c + "." + d));
  }

  /** The characters meant, by their codes: the six of the C library's isspace, and the decimal digits. */
  lemma CharacterClasses(c: char)
    ensures IsSpace(c) <==> c as int == 32 || 9 <= c as int <= 13
    ensures IsDigit(c) <==> 48 <= c as int <= 57
    ensures IsDigit(c) ==> Digit(c) == c as int - 48
  {
  }

  lemma ShownNumbers()
    ensures Show(0) == "0" && Show(1) == "1" && Show(168) == "168" && Show(192) == "192"
  {
    assert Show(16) == Show(1) + [Character(6)] && Show(168) == Show(16) + [Character(8)];
    assert Show(19) == Show(1) + [Character(9)] && Show(192) == Show(19) + [Character(2)];
  }

  /** An address as it is written, with a tab, a space and line ends around its components. */
  lemma AddressReads()
    ensures IsQuad("\t192.168 .\n0.1\r", 3, [192, 168, 0, 1]) && Assemble([192, 168, 0, 1]) == 0xC0A8_0001
  {
    hide *;
    var pre, post := ["\t", "", "\n", ""], ["", " ", "", "\r"];
    Blank(pre, post);
    PrintedReadsBack(0xC0A8_0001, pre, post);
    PrintedLine(pre, post);
  }

  lemma Blank(pre: seq<string>, post: seq<string>)
    requires pre == ["\t", "", "\n", ""] && post == ["", " ", "", "\r"]
    ensures forall k :: 0 <= k < 4 ==> AllSpace(pre[k]) && AllSpace(post[k])
    ensures Components(0xC0A8_0001) == [192, 168, 0, 1]
  {
  }

  lemma PrintedLine(pre: seq<string>, post: seq<string>)
    requires pre == ["\t", "", "\n", ""] && post == ["", " ", "", "\r"]
    ensures Printed(0xC0A8_0001, pre, post) == "\t192.168 .\n0.1\r"
  {
    hide Show;
    ShownNumbers();
    assert Components(0xC0A8_0001) == [192, 168, 0, 1];
    assert pre[0] + Show(192) + post[0] == "\t192";
    assert pre[1] + Show(168) + post[1] == "168 ";
    assert pre[2] + Show(0) + post[2] == "\n0";
    assert pre[3] + Show(1) + post[3] == "1\r";
    assert Printed(0xC0A8_0001, pre, post) == "\t192" + "." + ("168 " + "." + ("\n0" + "." + "1\r"));
  }
}
