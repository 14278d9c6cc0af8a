/** The incremental HTTP/1.1 request parser: a line scanner and a request state
    machine that resume over a growing buffer and write NULs into it. */
module HttpRequest {

  const BUFFER_SIZE := 4096

  datatype CheckState = RequestLine | Header
  datatype LineStatus = LineOk | LineBad | LineOpen
  datatype HttpCode = NoRequest | GetRequest | BadRequest | ForbiddenRequest | InternalError | ClosedConnection

  // ---------------------------------------------------------------- C strings

  /** First position of s in [i, e) whose byte satisfies p, or e. */
  function First(s: seq<char>, i: nat, e: nat, p: char -> bool): (r: nat)
    requires i <= e <= |s|
    ensures i <= r <= e
    decreases e - i
  {
    if i == e || p(s[i]) then i else First(s, i + 1, e, p)
  }

  lemma {:induction false} FirstFound(s: seq<char>, i: nat, e: nat, p: char -> bool)
    requires i <= e <= |s|
    ensures var r := First(s, i, e, p); (r < e ==> p(s[r])) && forall k :: i <= k < r ==> !p(s[k])
    decreases e - i
  {
    if i < e && !p(s[i]) {
      FirstFound(s, i + 1, e, p);
    }
  }

  lemma {:induction false} FirstIs(s: seq<char>, i: nat, e: nat, p: char -> bool, r: nat)
    requires i <= r <= e <= |s| && (r < e ==> p(s[r])) && forall k :: i <= k < r ==> !p(s[k])
    ensures First(s, i, e, p) == r
    decreases r - i
  {
    if i < r {
      FirstIs(s, i + 1, e, p, r);
    }
  }

  predicate Nul(c: char) {
    c == '\0'
  }

  predicate Blank(c: char) {
    c == ' ' || c == '\t'
  }

  predicate NonBlank(c: char) {
    !Blank(c)
  }

  predicate LineChar(c: char) {
    c == '\r' || c == '\n'
  }

  function FirstNul(s: seq<char>, i: nat, e: nat): (r: nat)
    requires i <= e <= |s|
    ensures i <= r <= e
  {
    First(s, i, e, Nul)
  }

  function FirstBlank(s: seq<char>, i: nat, e: nat): (r: nat)
    requires i <= e <= |s|
    ensures i <= r <= e
  {
    First(s, i, e, Blank)
  }

  function FirstNonBlank(s: seq<char>, i: nat, e: nat): (r: nat)
    requires i <= e <= |s|
    ensures i <= r <= e
  {
    First(s, i, e, NonBlank)
  }

  /** Where the C string starting at p ends. */
  function StrEnd(buf: seq<char>, p: nat): nat
    requires p <= |buf|
  {
    FirstNul(buf, p, |buf|)
  }

  /** strpbrk(buf + p, " \t"): the position found, or -1. */
  function StrPbrk(buf: seq<char>, p: nat): (r: int)
    requires p <= |buf|
  {
    var x := FirstBlank(buf, p, StrEnd(buf, p));
    if x == StrEnd(buf, p) then -1 else x
  }

  /** p + strspn(buf + p, " \t"). */
  function StrSpn(buf: seq<char>, p: nat): (r: nat)
    requires p <= |buf|
  {
    FirstNonBlank(buf, p, StrEnd(buf, p))
  }

  /** From index k on, the bytes at i are the given word, whatever the case of
      its letters (lower is upper in lower case). */
  predicate MatchesFrom(s: seq<char>, i: nat, upper: seq<char>, lower: seq<char>, k: nat)
    requires k <= |upper| == |lower| && i + |upper| <= |s|
    decreases |upper| - k
  {
    k == |upper| || ((s[i + k] == upper[k] || s[i + k] == lower[k]) && MatchesFrom(s, i, upper, lower, k + 1))
  }

  /** strcasecmp and strncasecmp: the bytes in [i, j) are exactly the word. */
  predicate Matches(s: seq<char>, i: nat, j: nat, upper: seq<char>, lower: seq<char>)
    requires i <= j <= |s| && |upper| == |lower|
  {
    j - i == |upper| && MatchesFrom(s, i, upper, lower, 0)
  }

  predicate IsGet(s: seq<char>, i: nat, j: nat)
    requires i <= j <= |s|
  {
    Matches(s, i, j, "GET", "get")
  }

  predicate IsHttp11(s: seq<char>, i: nat, j: nat)
    requires i <= j <= |s|
  {
    Matches(s, i, j, "HTTP/1.1", "http/1.1")
  }

  /** strchr finds a slash in [i, j). */
  predicate HasSlash(s: seq<char>, i: nat, j: nat)
    requires i <= j <= |s|
    decreases j - i
  {
    i < j && (s[i] == '/' || HasSlash(s, i + 1, j))
  }

  predicate TargetOk(s: seq<char>, i: nat, j: nat)
    requires i <= j <= |s|
  {
    if j - i >= 7 && Matches(s, i, i + 7, "HTTP://", "http://") then HasSlash(s, i + 7, j)
    else i < j && s[i] == '/'
  }

  // ---------------------------------------------------------------- request line

  /** The verdict on what follows the method name in [i, e): target, blanks, version. */
  predicate ValidRest(s: seq<char>, i: nat, e: nat)
    requires i <= e <= |s|
  {
    var z := FirstBlank(s, i, e);
    z < e && IsHttp11(s, FirstNonBlank(s, z + 1, e), e) && TargetOk(s, i, z)
  }

  /** The verdict on a request line in [p, e), as computed by cutting it at blanks. */
  predicate ValidRequestLine(s: seq<char>, p: nat, e: nat)
    requires p <= e <= |s|
  {
    var x := FirstBlank(s, p, e);
    x < e && IsGet(s, p, x) && ValidRest(s, FirstNonBlank(s, x + 1, e), e)
  }

  ghost predicate NoBlanks(s: seq<char>, i: int, j: int) {
    0 <= i < j <= |s| && forall k :: i <= k < j ==> !Blank(s[k])
  }

  ghost predicate AllBlanks(s: seq<char>, i: int, j: int) {
    0 <= i < j <= |s| && forall k :: i <= k < j ==> Blank(s[k])
  }

  /** The five parts as the scan sees them, cut at x, y, z and w. */
  ghost predicate CutParts(s: seq<char>, p: nat, x: nat, y: nat, z: nat, w: nat, e: nat) {
    && p <= x < y < z < w <= e <= |s|
    && IsGet(s, p, x) && AllBlanks(s, x, y)
    && NoBlanks(s, y, z) && TargetOk(s, y, z)
    && AllBlanks(s, z, w) && IsHttp11(s, w, e)
  }

  lemma {:induction false} WordNotBlank(s: seq<char>, i: nat, upper: seq<char>, lower: seq<char>, k: nat)
    requires k <= |upper| == |lower| && i + |upper| <= |s| && MatchesFrom(s, i, upper, lower, k)
    requires forall m :: 0 <= m < |upper| ==> !Blank(upper[m]) && !Blank(lower[m])
    ensures forall m :: i + k <= m < i + |upper| ==> !Blank(s[m])
    decreases |upper| - k
  {
    if k < |upper| {
      WordNotBlank(s, i, upper, lower, k + 1);
    }
  }

  /** A line with the five grammar parts is accepted: the scan cuts it where the
      grammar says. */
  lemma {:induction false} GrammarAccepted(s: seq<char>, p: nat, x: nat, y: nat, z: nat, w: nat, e: nat)
    requires CutParts(s, p, x, y, z, w, e)
    ensures ValidRequestLine(s, p, e)
  {
    WordNotBlank(s, p, "GET", "get", 0);
    FirstIs(s, p, e, Blank, x);
    FirstIs(s, x + 1, e, NonBlank, y);
    GrammarRest(s, y, z, w, e);
  }

  lemma {:induction false} GrammarRest(s: seq<char>, y: nat, z: nat, w: nat, e: nat)
    requires y < z < w <= e <= |s| && NoBlanks(s, y, z) && TargetOk(s, y, z) && AllBlanks(s, z, w) && IsHttp11(s, w, e)
    ensures ValidRest(s, y, e)
  {
    WordNotBlank(s, w, "HTTP/1.1", "http/1.1", 0);
    FirstIs(s, y, e, Blank, z);
    FirstIs(s, z + 1, e, NonBlank, w);
  }

  lemma {:induction false} BlanksEnd(s: seq<char>, x: nat, e: nat)
    requires x < e <= |s| && x == First(s, x, e, Blank)
    ensures var y := FirstNonBlank(s, x + 1, e); AllBlanks(s, x, y) && (y < e ==> !Blank(s[y]))
  {
    FirstFound(s, x, e, Blank);
    FirstFound(s, x + 1, e, NonBlank);
  }

  lemma {:induction false} WordEnds(s: seq<char>, i: nat, e: nat)
    requires i <= e <= |s|
    ensures var z := FirstBlank(s, i, e);
            (i < z ==> NoBlanks(s, i, z)) && (z < e ==> z == First(s, z, e, Blank)) && (i < e && !Blank(s[i]) ==> i < z)
  {
    FirstFound(s, i, e, Blank);
  }

  /** An empty target is not accepted, so it starts with a non-blank. */
  lemma {:induction false} TargetStarts(s: seq<char>, i: nat, j: nat)
    requires i <= j <= |s| && TargetOk(s, i, j)
    ensures i < j
  {
  }

  lemma {:induction false} AcceptedParts(s: seq<char>, p: nat, e: nat) returns (x: nat, y: nat, z: nat, w: nat)
    requires p <= e <= |s| && ValidRequestLine(s, p, e)
    ensures CutParts(s, p, x, y, z, w, e)
  {
    x := FirstBlank(s, p, e);
    y := FirstNonBlank(s, x + 1, e);
    z := FirstBlank(s, y, e);
    w := FirstNonBlank(s, z + 1, e);
    WordEnds(s, p, e);
    BlanksEnd(s, x, e);
    WordEnds(s, y, e);
    TargetStarts(s, y, z);
    BlanksEnd(s, z, e);
  }

  // ---------------------------------------------------------------- the grammar, in characters

  /** GET, each letter in either case. */
  predicate GetWord(s: seq<char>, i: int, j: int) {
    && 0 <= i && j == i + 3 <= |s|
    && (s[i] == 'G' || s[i] == 'g') && (s[i + 1] == 'E' || s[i + 1] == 'e') && (s[i + 2] == 'T' || s[i + 2] == 't')
  }

  /** HTTP, each letter in either case. */
  predicate HttpLetters(s: seq<char>, i: int) {
    && 0 <= i && i + 4 <= |s|
    && (s[i] == 'H' || s[i] == 'h') && (s[i + 1] == 'T' || s[i + 1] == 't')
    && (s[i + 2] == 'T' || s[i + 2] == 't') && (s[i + 3] == 'P' || s[i + 3] == 'p')
  }

  predicate VersionWord(s: seq<char>, i: int, j: int) {
    && j == i + 8 <= |s| && HttpLetters(s, i)
    && s[i + 4] == '/' && s[i + 5] == '1' && s[i + 6] == '.' && s[i + 7] == '1'
  }

  /** A target that starts with http:// needs a slash behind that, any other one at its start. */
  ghost predicate Target(s: seq<char>, i: int, j: int) {
    && 0 <= i <= j <= |s|
    && if i + 7 <= j && HttpLetters(s, i) && s[i + 4] == ':' && s[i + 5] == '/' && s[i + 6] == '/'
       then exists k :: i + 7 <= k < j && s[k] == '/'
       else i < j && s[i] == '/'
  }

  /** Blanks, and nothing else, from i to j. */
  ghost predicate Gap(s: seq<char>, i: int, j: int) {
    0 <= i < j <= |s| && forall k :: i <= k < j ==> s[k] == ' ' || s[k] == '\t'
  }

  /** GET, blanks, a target without blanks, blanks, HTTP/1.1, cut at x, y, z and w. */
  ghost predicate RequestLineParts(s: seq<char>, p: nat, x: nat, y: nat, z: nat, w: nat, e: nat) {
    && p <= x < y < z < w <= e <= |s|
    && GetWord(s, p, x) && Gap(s, x, y) && Target(s, y, z) && Gap(s, z, w) && VersionWord(s, w, e)
    && forall k :: y <= k < z ==> s[k] != ' ' && s[k] != '\t'
  }

  lemma {:induction false} MatchSteps(s: seq<char>, i: nat, upper: seq<char>, lower: seq<char>, k: nat)
    requires k < |upper| == |lower| && i + |upper| <= |s|
    ensures MatchesFrom(s, i, upper, lower, k) <==>
              (s[i + k] == upper[k] || s[i + k] == lower[k]) && MatchesFrom(s, i, upper, lower, k + 1)
  {
  }

  lemma {:induction false} GetIs(s: seq<char>, i: nat, j: nat)
    requires i <= j <= |s|
    ensures IsGet(s, i, j) <==> GetWord(s, i, j)
  {
    if j == i + 3 {
      MatchSteps(s, i, "GET", "get", 0);
      MatchSteps(s, i, "GET", "get", 1);
      MatchSteps(s, i, "GET", "get", 2);
    }
  }

  /** The first four characters of a word that starts with HTTP. */
  lemma {:induction false} HttpIs(s: seq<char>, i: nat, upper: seq<char>, lower: seq<char>)
    requires |upper| == |lower| >= 4 && i + |upper| <= |s|
    requires upper[..4] == "HTTP" && lower[..4] == "http"
    ensures MatchesFrom(s, i, upper, lower, 0) <==> HttpLetters(s, i) && MatchesFrom(s, i, upper, lower, 4)
  {
    assert upper[0] == upper[..4][0] && upper[1] == upper[..4][1] && upper[2] == upper[..4][2]
        && upper[3] == upper[..4][3];
    assert lower[0] == lower[..4][0] && lower[1] == lower[..4][1] && lower[2] == lower[..4][2]
        && lower[3] == lower[..4][3];
    MatchSteps(s, i, upper, lower, 0);
    MatchSteps(s, i, upper, lower, 1);
    MatchSteps(s, i, upper, lower, 2);
    MatchSteps(s, i, upper, lower, 3);
  }

  lemma {:induction false} VersionIs(s: seq<char>, i: nat, j: nat)
    requires i <= j <= |s|
    ensures IsHttp11(s, i, j) <==> VersionWord(s, i, j)
  {
    if j == i + 8 {
      HttpIs(s, i, "HTTP/1.1", "http/1.1");
      MatchSteps(s, i, "HTTP/1.1", "http/1.1", 4);
      MatchSteps(s, i, "HTTP/1.1", "http/1.1", 5);
      MatchSteps(s, i, "HTTP/1.1", "http/1.1", 6);
      MatchSteps(s, i, "HTTP/1.1", "http/1.1", 7);
    }
  }

  lemma {:induction false} SlashIs(s: seq<char>, i: nat, j: nat)
    requires i <= j <= |s|
    ensures HasSlash(s, i, j) <==> exists k :: i <= k < j && s[k] == '/'
    decreases j - i
  {
    if i < j {
      SlashIs(s, i + 1, j);
    }
  }

  lemma {:induction false} TargetIs(s: seq<char>, i: nat, j: nat)
    requires i <= j <= |s|
    ensures TargetOk(s, i, j) <==> Target(s, i, j)
  {
    if j - i >= 7 {
      HttpIs(s, i, "HTTP://", "http://");
      MatchSteps(s, i, "HTTP://", "http://", 4);
      MatchSteps(s, i, "HTTP://", "http://", 5);
      MatchSteps(s, i, "HTTP://", "http://", 6);
      SlashIs(s, i + 7, j);
    }
  }

  lemma {:induction false} PartsAgree(s: seq<char>, p: nat, x: nat, y: nat, z: nat, w: nat, e: nat)
    ensures CutParts(s, p, x, y, z, w, e) <==> RequestLineParts(s, p, x, y, z, w, e)
  {
    if p <= x < y < z < w <= e <= |s| {
      GetIs(s, p, x);
      TargetIs(s, y, z);
      VersionIs(s, w, e);
      assert AllBlanks(s, x, y) <==> Gap(s, x, y);
      assert AllBlanks(s, z, w) <==> Gap(s, z, w);
    }
  }

  /** The computed verdict accepts exactly the grammar. */
  lemma {:induction false} RequestLineGrammar(s: seq<char>, p: nat, e: nat)
    requires p <= e <= |s|
    ensures ValidRequestLine(s, p, e) <==> exists x, y, z, w :: RequestLineParts(s, p, x, y, z, w, e)
  {
    if ValidRequestLine(s, p, e) {
      var x, y, z, w := AcceptedParts(s, p, e);
      PartsAgree(s, p, x, y, z, w, e);
    }
    forall x, y, z, w | RequestLineParts(s, p, x, y, z, w, e) ensures ValidRequestLine(s, p, e) {
      PartsAgree(s, p, x, y, z, w, e);
      GrammarAccepted(s, p, x, y, z, w, e);
    }
  }

  // ---------------------------------------------------------------- lines of equal bytes

  ghost predicate Agree(b0: seq<char>, b1: seq<char>, i: nat, j: nat) {
    i <= j <= |b0| && j <= |b1| && forall k :: i <= k < j ==> b0[k] == b1[k]
  }

  lemma {:induction false} SameMatch(b0: seq<char>, b1: seq<char>, i: nat, upper: seq<char>, lower: seq<char>, k: nat)
    requires k <= |upper| == |lower| && Agree(b0, b1, i, i + |upper|)
    ensures MatchesFrom(b0, i, upper, lower, k) <==> MatchesFrom(b1, i, upper, lower, k)
    decreases |upper| - k
  {
    if k < |upper| {
      SameMatch(b0, b1, i, upper, lower, k + 1);
    }
  }

  lemma {:induction false} SameSlash(b0: seq<char>, b1: seq<char>, i: nat, j: nat)
    requires Agree(b0, b1, i, j)
    ensures HasSlash(b0, i, j) <==> HasSlash(b1, i, j)
    decreases j - i
  {
    if i < j {
      SameSlash(b0, b1, i + 1, j);
    }
  }

  /** Words and targets depend on their own bytes only ... */
  lemma {:induction false} SameWords(b0: seq<char>, b1: seq<char>, i: nat, j: nat)
    requires Agree(b0, b1, i, j)
    ensures IsGet(b0, i, j) <==> IsGet(b1, i, j)
    ensures IsHttp11(b0, i, j) <==> IsHttp11(b1, i, j)
    ensures TargetOk(b0, i, j) <==> TargetOk(b1, i, j)
  {
    if j - i == 3 {
      SameMatch(b0, b1, i, "GET", "get", 0);
    }
    if j - i == 8 {
      SameMatch(b0, b1, i, "HTTP/1.1", "http/1.1", 0);
    }
    if j - i >= 7 {
      SameMatch(b0, b1, i, "HTTP://", "http://", 0);
      SameSlash(b0, b1, i + 7, j);
    }
  }

  /** ... and so do the cuts at blanks ... */
  lemma {:induction false} SameBlanks(b0: seq<char>, b1: seq<char>, i: nat, e: nat)
    requires Agree(b0, b1, i, e)
    ensures FirstBlank(b0, i, e) == FirstBlank(b1, i, e)
    ensures FirstNonBlank(b0, i, e) == FirstNonBlank(b1, i, e)
  {
    SameFirst(b0, b1, i, e, Blank);
    SameFirst(b0, b1, i, e, NonBlank);
  }

  lemma {:induction false} SameFirst(b0: seq<char>, b1: seq<char>, i: nat, e: nat, p: char -> bool)
    requires Agree(b0, b1, i, e)
    ensures First(b0, i, e, p) == First(b1, i, e, p)
    decreases e - i
  {
    if i < e {
      SameFirst(b0, b1, i + 1, e, p);
    }
  }

  /** ... and the verdicts on the rest of a line and on a whole line. */
  lemma {:induction false} SameRest(b0: seq<char>, b1: seq<char>, i: nat, e: nat)
    requires Agree(b0, b1, i, e)
    ensures ValidRest(b0, i, e) <==> ValidRest(b1, i, e)
  {
    SameBlanks(b0, b1, i, e);
    var z := FirstBlank(b0, i, e);
    if z < e {
      SameBlanks(b0, b1, z + 1, e);
      SameWords(b0, b1, i, z);
      SameWords(b0, b1, FirstNonBlank(b0, z + 1, e), e);
    }
  }

  lemma {:induction false} SameLine(b0: seq<char>, b1: seq<char>, i: nat, e: nat)
    requires Agree(b0, b1, i, e)
    ensures ValidRequestLine(b0, i, e) <==> ValidRequestLine(b1, i, e)
  {
    SameBlanks(b0, b1, i, e);
    var x := FirstBlank(b0, i, e);
    if x < e {
      SameBlanks(b0, b1, x + 1, e);
      var y := FirstNonBlank(b0, x + 1, e);
      SameWords(b0, b1, i, x);
      assert ValidRest(b0, y, e) <==> ValidRest(b1, y, e) by {
        SameRest(b0, b1, y, e);
      }
    }
  }

  /** Cutting the string [p, e) of b0 at x: the word before x stands alone, and
      what follows the blanks after x is found where it was. */
  lemma {:induction false} CutWord(b0: seq<char>, p: nat, e: nat, b1: seq<char>, x: nat)
    requires p <= x < e < |b0| && e == StrEnd(b0, p)
    requires Agree(b0, b1, p, x) && Agree(b0, b1, x + 1, e + 1) && b1[x] == '\0'
    ensures StrEnd(b1, p) == x
    ensures var y := FirstNonBlank(b0, x + 1, e);
            StrSpn(b1, x + 1) == y && StrEnd(b1, y) == e
  {
    FirstFound(b0, p, |b0|, Nul);
    FirstIs(b1, p, |b1|, Nul, x);
    FirstIs(b1, x + 1, |b1|, Nul, e);
    var y := FirstNonBlank(b0, x + 1, e);
    SameBlanks(b0, b1, x + 1, e);
    FirstIs(b1, y, |b1|, Nul, e);
  }

  /** The verdict on a line, read off the buffer cut at its first blank x. */
  lemma {:induction false} CutLine(b0: seq<char>, p: nat, e: nat, b1: seq<char>, x: nat, y: nat)
    requires p <= x < e < |b0| && e == StrEnd(b0, p) && x == FirstBlank(b0, p, e) && y == FirstNonBlank(b0, x + 1, e)
    requires Agree(b0, b1, p, x) && Agree(b0, b1, x + 1, e + 1) && b1[x] == '\0'
    ensures StrEnd(b1, p) == x && StrSpn(b1, x + 1) == y && StrEnd(b1, y) == e
    ensures ValidRequestLine(b0, p, e) <==> IsGet(b1, p, x) && ValidRest(b1, y, e)
  {
    CutWord(b0, p, e, b1, x);
    SameWords(b0, b1, p, x);
    SameRest(b0, b1, y, e);
  }

  /** parse_requestline: cuts the line in place and judges its parts. */
  method ParseRequestLine(buffer: array<char>, temp: nat, checkstate: CheckState)
    returns (code: HttpCode, state: CheckState)
    requires temp < buffer.Length && StrEnd(buffer[..], temp) < buffer.Length
    modifies buffer
    ensures var e := StrEnd(old(buffer[..]), temp);
            code == (if ValidRequestLine(old(buffer[..]), temp, e) then NoRequest else BadRequest)
            && Agree(old(buffer[..]), buffer[..], 0, temp) && Agree(old(buffer[..]), buffer[..], e, buffer.Length)
    ensures state == if code == NoRequest then Header else checkstate
  {
    ghost var b0, e := buffer[..], StrEnd(buffer[..], temp);
    state := checkstate;
    var url := StrPbrk(buffer[..], temp);
    if url == -1 {
      code := BadRequest;
    } else {
      code := ParseWords(buffer, temp, url, e);
    }
    if code == NoRequest {
      state := Header;
    }
  }

  /** The part of parse_requestline behind the first blank: the method name is cut off and
      judged, then the rest. */
  method ParseWords(buffer: array<char>, temp: nat, blank: nat, ghost e: nat) returns (code: HttpCode)
    requires temp <= blank < e < buffer.Length && e == StrEnd(buffer[..], temp)
    requires blank == FirstBlank(buffer[..], temp, e)
    modifies buffer
    ensures code == if ValidRequestLine(old(buffer[..]), temp, e) then NoRequest else BadRequest
    ensures Agree(old(buffer[..]), buffer[..], 0, temp) && Agree(old(buffer[..]), buffer[..], e, buffer.Length)
  {
    ghost var b0 := buffer[..];
    buffer[blank] := '\0';
    var b1 := buffer[..];
    assert b1 == b0[blank := '\0'];
    CutLine(b0, temp, e, b1, blank, FirstNonBlank(b0, blank + 1, e));
    if !IsGet(b1, temp, StrEnd(b1, temp)) {
      return BadRequest;
    }
    var url := StrSpn(b1, blank + 1);
    code := ParseTarget(buffer, url);
    CutAgrees(b0, b1, buffer[..], temp, blank, url, e);
  }

  /** Only bytes of the line itself were written. */
  lemma {:induction false} CutAgrees(b0: seq<char>, b1: seq<char>, b2: seq<char>, p: nat, x: nat, y: nat, e: nat)
    requires p <= x < y <= e <= |b0| && x < e && b1 == b0[x := '\0']
    requires Agree(b1, b2, 0, y) && Agree(b1, b2, e, |b0|)
    ensures Agree(b0, b2, 0, p) && Agree(b0, b2, e, |b0|)
  {
  }

  /** The second half of parse_requestline: version, then target. */
  method ParseTarget(buffer: array<char>, url: nat) returns (code: HttpCode)
    requires url < buffer.Length && StrEnd(buffer[..], url) < buffer.Length
    modifies buffer
    ensures var e := StrEnd(old(buffer[..]), url);
            code == (if ValidRest(old(buffer[..]), url, e) then NoRequest else BadRequest)
            && Agree(old(buffer[..]), buffer[..], 0, url) && Agree(old(buffer[..]), buffer[..], e, buffer.Length)
  {
    ghost var b1, e := buffer[..], StrEnd(buffer[..], url);
    var version := StrPbrk(buffer[..], url);
    if version == -1 {
      return BadRequest;
    }
    ghost var z := version;
    buffer[version] := '\0';
    version := version + 1;
    CutWord(b1, url, e, buffer[..], z);
    version := StrSpn(buffer[..], version);
    SameWords(b1, buffer[..], version, e);
    SameWords(b1, buffer[..], url, z);
    if !IsHttp11(buffer[..], version, StrEnd(buffer[..], version)) {
      return BadRequest;
    }
    code := if TargetOk(buffer[..], url, StrEnd(buffer[..], url)) then NoRequest else BadRequest;
  }

  /** parse_headers: an empty line completes the request; header contents are
      only printed. */
  method ParseHeaders(buffer: array<char>, temp: nat) returns (code: HttpCode)
    requires temp < buffer.Length
    ensures code == if StrEnd(buffer[..], temp) == temp then GetRequest else NoRequest
  {
    code := if buffer[temp] == '\0' then GetRequest else NoRequest;
  }

  // ---------------------------------------------------------------- line scanner

  /** First CR or LF of s in [i, e), or e. */
  function Stop(s: seq<char>, i: nat, e: nat): (j: nat)
    requires i <= e <= |s|
    ensures i <= j <= e
  {
    First(s, i, e, LineChar)
  }

  /** What a scan of [.., e) that stopped at j has found. */
  function StatusAt(s: seq<char>, j: nat, e: nat): LineStatus
    requires j <= e <= |s|
  {
    if j == e then LineOpen
    else if s[j] != '\r' then LineBad
    else if j + 1 == e then LineOpen
    else if s[j + 1] == '\n' then LineOk
    else LineBad
  }

  datatype LineResult = LineResult(status: LineStatus, checked: nat, buffer: seq<char>)

  /** Scanning on from position i: everything a scan returns and leaves behind. */
  function PlainLine(buf: seq<char>, i: nat, read: nat): (r: LineResult)
    requires i <= read <= |buf|
  {
    var j := Stop(buf, i, read);
    var st := StatusAt(buf, j, read);
    if st == LineOk then LineResult(st, j + 2, buf[j := '\0'][j + 1 := '\0']) else LineResult(st, j, buf)
  }

  /** The scan resumes just after a CR, on its LF. */
  predicate ResumesOnLf(buf: seq<char>, i: nat, read: nat)
    requires i <= read <= |buf|
  {
    1 < i < read && buf[i] == '\n' && buf[i - 1] == '\r'
  }

  function Line1(buf: seq<char>, i: nat, read: nat): LineResult
    requires i <= read <= |buf| && (ResumesOnLf(buf, i, read) ==> i + 1 < |buf|)
  {
    if ResumesOnLf(buf, i, read) then LineResult(LineOk, i + 2, buf[i := '\0'][i + 1 := '\0'])
    else PlainLine(buf, i, read)
  }

  function Line2(buf: seq<char>, i: nat, read: nat): LineResult
    requires i <= read <= |buf|
  {
    if ResumesOnLf(buf, i, read) then LineResult(LineOk, i + 1, buf[i - 1 := '\0'][i := '\0'])
    else PlainLine(buf, i, read)
  }

  /** The two versions of the scanner agree exactly when the byte before the
      resume point is not a CR waiting for its LF. */
  lemma VersionsAgree(buf: seq<char>, i: nat, read: nat)
    requires i <= read <= |buf| && (ResumesOnLf(buf, i, read) ==> i + 1 < |buf|)
    ensures Line1(buf, i, read) == Line2(buf, i, read) <==> !ResumesOnLf(buf, i, read)
  {
  }

  /** What the two versions make of a scan that starts on a line feed: behind a CR one erases
      the line feed and the byte behind it, the other the CR and the line feed. */
  lemma OnLineFeed(buf: seq<char>, i: nat, read: nat)
    requires i < read <= |buf| && i + 1 < |buf| && buf[i] == '\n'
    ensures var a, b := Line1(buf, i, read), Line2(buf, i, read);
            if i > 1 && buf[i - 1] == '\r' then
              && a == LineResult(LineOk, i + 2, buf[..i] + ['\0', '\0'] + buf[i + 2..])
              && b == LineResult(LineOk, i + 1, buf[..i - 1] + ['\0', '\0'] + buf[i + 1..])
            else a == b == LineResult(LineBad, i, buf)
  {
    FirstIs(buf, i, read, LineChar, i);
  }

  /** parse_line of httprequest.cpp. */
  method ParseLine(buffer: array<char>, checked_index: nat, read_index: nat)
    returns (status: LineStatus, checked: nat)
    requires checked_index <= read_index <= buffer.Length
    requires ResumesOnLf(buffer[..], checked_index, read_index) ==> checked_index + 1 < buffer.Length
    modifies buffer
    ensures LineResult(status, checked, buffer[..]) == Line1(old(buffer[..]), checked_index, read_index)
  {
    checked := checked_index;
    ghost var s := buffer[..];
    while checked < read_index
      invariant checked_index <= checked <= read_index && buffer[..] == old(buffer[..])
      invariant checked > checked_index ==> !ResumesOnLf(buffer[..], checked_index, read_index)
      invariant forall k :: checked_index <= k < checked ==> !LineChar(s[k])
    {
      var temp := buffer[checked];
      if temp == '\r' {
        FirstIs(s, checked_index, read_index, LineChar, checked);
        if checked + 1 == read_index {
          return LineOpen, checked;
        } else if buffer[checked + 1] == '\n' {
          buffer[checked] := '\0';
          buffer[checked + 1] := '\0';
          checked := checked + 2;
          return LineOk, checked;
        }
        return LineBad, checked;
      } else if temp == '\n' {
        FirstIs(s, checked_index, read_index, LineChar, checked);
        if checked > 1 && buffer[checked - 1] == '\r' {
          assert checked == checked_index;
          buffer[checked] := '\0';
          buffer[checked + 1] := '\0';
          checked := checked + 2;
          return LineOk, checked;
        }
        return LineBad, checked;
      }
      checked := checked + 1;
    }
    FirstIs(s, checked_index, read_index, LineChar, checked);
    return LineOpen, checked;
  }

  /** The fields of http_conn that its own parse_line works on. */
  class HttpConn {
    const m_read_buf: array<char>
    var m_checked_idx: nat
    var m_read_idx: nat

    constructor (size: nat)
      ensures m_read_buf.Length == size && m_checked_idx == 0 && m_read_idx == 0 && fresh(m_read_buf)
    {
      m_read_buf := new char[size];
      m_checked_idx, m_read_idx := 0, 0;
    }

    method ParseLine() returns (status: LineStatus)
      requires m_checked_idx <= m_read_idx <= m_read_buf.Length
      modifies this`m_checked_idx, m_read_buf
      ensures LineResult(status, m_checked_idx, m_read_buf[..])
           == Line2(old(m_read_buf[..]), old(m_checked_idx), m_read_idx)
    {
      ghost var s := m_read_buf[..];
      ghost var i := m_checked_idx;
      while m_checked_idx < m_read_idx
        invariant i <= m_checked_idx <= m_read_idx && m_read_buf[..] == old(m_read_buf[..])
        invariant m_checked_idx > i ==> !ResumesOnLf(m_read_buf[..], i, m_read_idx)
        invariant forall k :: i <= k < m_checked_idx ==> !LineChar(s[k])
      {
        var temp := m_read_buf[m_checked_idx];
        if temp == '\r' {
          FirstIs(s, i, m_read_idx, LineChar, m_checked_idx);
          if m_checked_idx + 1 == m_read_idx {
            return LineOpen;
          } else if m_read_buf[m_checked_idx + 1] == '\n' {
            m_read_buf[m_checked_idx] := '\0';
            m_read_buf[m_checked_idx + 1] := '\0';
            m_checked_idx := m_checked_idx + 2;
            return LineOk;
          }
          return LineBad;
        } else if temp == '\n' {
          FirstIs(s, i, m_read_idx, LineChar, m_checked_idx);
          if m_checked_idx > 1 && m_read_buf[m_checked_idx - 1] == '\r' {
            assert m_checked_idx == i;
            m_read_buf[m_checked_idx - 1] := '\0';
            m_read_buf[m_checked_idx] := '\0';
            m_checked_idx := m_checked_idx + 1;
            return LineOk;
          }
          return LineBad;
        }
        m_checked_idx := m_checked_idx + 1;
      }
      FirstIs(s, i, m_read_idx, LineChar, m_checked_idx);
      return LineOpen;
    }
  }

  // ---------------------------------------------------------------- the verdict on a byte stream

  datatype Step = Done(code: HttpCode) | More(next: nat, state: CheckState)

  /** What the line of s starting at p amounts to in state st. */
  function LineStep(s: seq<char>, p: nat, st: CheckState): (r: Step)
    requires p <= |s|
    ensures r.More? ==> p + 2 <= r.next <= |s|
  {
    var j := Stop(s, p, |s|);
    match StatusAt(s, j, |s|)
    case LineOpen => Done(NoRequest)
    case LineBad => Done(BadRequest)
    case LineOk =>
      var e := FirstNul(s, p, j);
      if st == RequestLine then
        if ValidRequestLine(s, p, e) then More(j + 2, Header) else Done(BadRequest)
      else
        if e == p then Done(GetRequest) else More(j + 2, Header)
  }

  /** The verdict on a whole stream, read in one piece from position p. */
  function Verdict(s: seq<char>, p: nat, st: CheckState): HttpCode
    requires p <= |s|
    decreases |s| - p
  {
    match LineStep(s, p, st)
    case Done(code) => code
    case More(next, st') => Verdict(s, next, st')
  }

  /** Reading complete lines takes the parser from (p, st) to (q, st'). */
  predicate Reaches(s: seq<char>, p: nat, st: CheckState, q: nat, st': CheckState)
    requires p <= |s|
    decreases |s| - p
  {
    (p == q && st == st')
    || (LineStep(s, p, st).More? && Reaches(s, LineStep(s, p, st).next, LineStep(s, p, st).state, q, st'))
  }

  lemma {:induction false} ReachesVerdict(s: seq<char>, p: nat, st: CheckState, q: nat, st': CheckState)
    requires p <= |s| && q <= |s| && Reaches(s, p, st, q, st')
    ensures Verdict(s, p, st) == Verdict(s, q, st')
    decreases |s| - p
  {
    if !(p == q && st == st') {
      var m := LineStep(s, p, st);
      ReachesVerdict(s, m.next, m.state, q, st');
    }
  }

  lemma {:induction false} ReachesOneMore(s: seq<char>, p: nat, st: CheckState, q: nat, st': CheckState)
    requires p <= |s| && q <= |s| && Reaches(s, p, st, q, st') && LineStep(s, q, st').More?
    ensures Reaches(s, p, st, LineStep(s, q, st').next, LineStep(s, q, st').state)
    decreases |s| - p
  {
    if !(p == q && st == st') {
      var m := LineStep(s, p, st);
      ReachesOneMore(s, m.next, m.state, q, st');
    }
  }

  lemma {:induction false} StopOfPrefix(s: seq<char>, t: seq<char>, p: nat)
    requires p <= |s| && s <= t && StatusAt(s, Stop(s, p, |s|), |s|) != LineOpen
    ensures Stop(t, p, |t|) == Stop(s, p, |s|)
    ensures StatusAt(t, Stop(s, p, |s|), |t|) == StatusAt(s, Stop(s, p, |s|), |s|)
  {
    FirstFound(s, p, |s|, LineChar);
    FirstIs(t, p, |t|, LineChar, Stop(s, p, |s|));
  }

  lemma {:induction false} LineOfPrefix(s: seq<char>, t: seq<char>, p: nat, j: nat)
    requires p <= j <= |s| && s <= t
    ensures FirstNul(t, p, j) == FirstNul(s, p, j)
    ensures ValidRequestLine(t, p, FirstNul(s, p, j)) <==> ValidRequestLine(s, p, FirstNul(s, p, j))
  {
    SameFirst(s, t, p, j, Nul);
    SameLine(s, t, p, FirstNul(s, p, j));
  }

  /** A step that is decided is not changed by the bytes that follow. */
  lemma {:induction false} StepOfPrefix(s: seq<char>, t: seq<char>, p: nat, st: CheckState)
    requires p <= |s| && s <= t && LineStep(s, p, st) != Done(NoRequest)
    ensures LineStep(t, p, st) == LineStep(s, p, st)
  {
    StopOfPrefix(s, t, p);
    LineOfPrefix(s, t, p, Stop(s, p, |s|));
  }

  /** A verdict reached on a prefix of the stream is the verdict on the stream. */
  lemma {:induction false} VerdictOfPrefix(s: seq<char>, t: seq<char>, p: nat, st: CheckState)
    requires p <= |s| && s <= t && Verdict(s, p, st) != NoRequest
    ensures Verdict(t, p, st) == Verdict(s, p, st)
    decreases |s| - p
  {
    StepOfPrefix(s, t, p, st);
    var m := LineStep(s, p, st);
    if m.More? {
      VerdictOfPrefix(s, t, m.next, m.state);
    }
  }

  lemma {:induction false} ReachesOfPrefix(s: seq<char>, t: seq<char>, p: nat, st: CheckState, q: nat, st': CheckState)
    requires p <= |s| && s <= t && Reaches(s, p, st, q, st')
    ensures Reaches(t, p, st, q, st')
    decreases |s| - p
  {
    if !(p == q && st == st') {
      StepOfPrefix(s, t, p, st);
      var m := LineStep(s, p, st);
      ReachesOfPrefix(s, t, m.next, m.state, q, st');
    }
  }

  // ---------------------------------------------------------------- the resumable parser

  /** The parser's state between two calls, when raw is all that was received:
      complete lines are behind start, which may be clobbered; from start on the
      buffer is intact, and scanned up to checked without finding a CR or LF. */
  ghost predicate Ready(buf: seq<char>, raw: seq<char>, checked: nat, state: CheckState, start: nat) {
    && start <= checked <= |raw| <= |buf|
    && Agree(buf, raw, start, |raw|)
    && (start > 0 ==> buf[start - 1] != '\r')
    && (forall k :: start <= k < checked ==> !LineChar(raw[k]))
    && Reaches(raw, 0, RequestLine, start, state)
  }

  /** The byte before the resume point is never a CR, so the scan is plain, and it
      finds the end of the line that starts at start. */
  lemma {:induction false} ReadyScan(buf: seq<char>, raw: seq<char>, checked: nat, state: CheckState, start: nat)
    requires Ready(buf, raw, checked, state, start)
    ensures !ResumesOnLf(buf, checked, |raw|)
    ensures var j := Stop(raw, start, |raw|);
            checked <= j && Stop(buf, checked, |raw|) == j && StatusAt(buf, j, |raw|) == StatusAt(raw, j, |raw|)
            && forall k :: start <= k < j ==> !LineChar(raw[k])
  {
    var j := Stop(buf, checked, |raw|);
    FirstFound(buf, checked, |raw|, LineChar);
    FirstIs(raw, start, |raw|, LineChar, j);
    if checked > start {
      assert !LineChar(raw[checked - 1]);
    }
  }

  /** So in every state the receive loop reaches, both versions of the scanner do the same. */
  lemma {:induction false} ScannersAgree(buf: seq<char>, raw: seq<char>, checked: nat, state: CheckState, start: nat)
    requires Ready(buf, raw, checked, state, start)
    ensures !ResumesOnLf(buf, checked, |raw|) && Line1(buf, checked, |raw|) == Line2(buf, checked, |raw|)
  {
    ReadyScan(buf, raw, checked, state, start);
  }

  /** After a complete line at j has been overwritten with NULs, its C string ends
      where it ended in the raw bytes, and is judged as the raw bytes are. */
  lemma {:induction false} ReadyLine(buf: seq<char>, raw: seq<char>, start: nat, j: nat)
    requires start <= j < |buf| && Agree(buf, raw, start, j) && buf[j] == '\0'
    ensures StrEnd(buf, start) == FirstNul(raw, start, j) <= j
    ensures ValidRequestLine(buf, start, FirstNul(raw, start, j)) <==>
            ValidRequestLine(raw, start, FirstNul(raw, start, j))
  {
    var e := FirstNul(raw, start, j);
    FirstFound(raw, start, j, Nul);
    FirstIs(buf, start, |buf|, Nul, e);
    SameLine(buf, raw, start, e);
  }

  /** A line decided at a point the parser has reached decides the stream ... */
  lemma {:induction false} DecidedLine(raw: seq<char>, start: nat, state: CheckState, code: HttpCode)
    requires start <= |raw| && Reaches(raw, 0, RequestLine, start, state) && LineStep(raw, start, state) == Done(code)
    ensures Verdict(raw, 0, RequestLine) == code
  {
    ReachesVerdict(raw, 0, RequestLine, start, state);
  }

  /** ... and so does a line that is open or broken ... */
  lemma {:induction false} IncompleteLine(raw: seq<char>, start: nat, state: CheckState)
    requires start <= |raw| && Reaches(raw, 0, RequestLine, start, state)
    ensures var status := StatusAt(raw, Stop(raw, start, |raw|), |raw|);
            status != LineOk ==> Verdict(raw, 0, RequestLine) == if status == LineOpen then NoRequest else BadRequest
  {
    var status := StatusAt(raw, Stop(raw, start, |raw|), |raw|);
    if status != LineOk {
      DecidedLine(raw, start, state, if status == LineOpen then NoRequest else BadRequest);
    }
  }

  /** ... and a line that is not decided yet leaves the parser ready after it. */
  lemma {:induction false} PassedLine(buf: seq<char>, raw: seq<char>, start: nat, state: CheckState, next: nat,
                                      state': CheckState)
    requires start <= |raw| && Reaches(raw, 0, RequestLine, start, state)
    requires LineStep(raw, start, state) == More(next, state')
    requires next <= |raw| <= |buf| && Agree(buf, raw, next, |raw|) && buf[next - 1] == '\0'
    ensures Ready(buf, raw, next, state', next)
  {
    ReachesOneMore(raw, 0, RequestLine, start, state);
  }

  /** The body of parse_content's loop: one complete line [temp, j) of raw, its CR
      and LF overwritten already. */
  method HandleLine(buffer: array<char>, temp: nat, checkstate: CheckState, ghost raw: seq<char>, ghost j: nat)
    returns (code: HttpCode, state: CheckState)
    requires temp <= j < buffer.Length && Agree(buffer[..], raw, temp, j) && buffer[j] == '\0'
    requires j == Stop(raw, temp, |raw|) && StatusAt(raw, j, |raw|) == LineOk
    modifies buffer
    ensures LineStep(raw, temp, checkstate) == if code == NoRequest then More(j + 2, state) else Done(code)
    ensures Agree(old(buffer[..]), buffer[..], j, buffer.Length)
  {
    ReadyLine(buffer[..], raw, temp, j);
    if checkstate == RequestLine {
      code, state := ParseRequestLine(buffer, temp, checkstate);
    } else {
      code := ParseHeaders(buffer, temp);
      state := checkstate;
    }
  }

  /** parse_line, called in a state the parser can be in. */
  method ScanLine(buffer: array<char>, checked0: nat, read_index: nat, ghost raw: seq<char>, ghost state: CheckState,
                  ghost start: nat)
    returns (status: LineStatus, checked: nat)
    requires read_index == |raw| && Ready(buffer[..], raw, checked0, state, start)
    modifies buffer
    ensures if status == LineOk then At(buffer[..], raw, start, state, checked)
            else Ready(buffer[..], raw, checked, state, start)
    ensures status != LineOk ==> Verdict(raw, 0, RequestLine) == if status == LineOpen then NoRequest else BadRequest
  {
    ReadyScan(buffer[..], raw, checked0, state, start);
    ghost var b0 := buffer[..];
    status, checked := ParseLine(buffer, checked0, read_index);
    ScanOutcome(b0, buffer[..], raw, checked0, state, start, status, checked);
  }

  /** What a plain scan found, in terms of the raw bytes. */
  lemma {:induction false} ScanFound(b0: seq<char>, b1: seq<char>, raw: seq<char>, checked0: nat, state: CheckState,
                                     start: nat, status: LineStatus, checked: nat)
    requires Ready(b0, raw, checked0, state, start) && !ResumesOnLf(b0, checked0, |raw|)
    requires LineResult(status, checked, b1) == Line1(b0, checked0, |raw|)
    ensures var j := Stop(raw, start, |raw|);
            && status == StatusAt(raw, j, |raw|)
            && if status == LineOk then checked == j + 2 && b1 == b0[j := '\0'][j + 1 := '\0']
               else checked == j && b1 == b0
  {
    ReadyScan(b0, raw, checked0, state, start);
  }

  lemma {:induction false} ScanOutcome(b0: seq<char>, b1: seq<char>, raw: seq<char>, checked0: nat, state: CheckState,
                                       start: nat, status: LineStatus, checked: nat)
    requires Ready(b0, raw, checked0, state, start) && !ResumesOnLf(b0, checked0, |raw|)
    requires LineResult(status, checked, b1) == Line1(b0, checked0, |raw|)
    ensures if status == LineOk then At(b1, raw, start, state, checked) else Ready(b1, raw, checked, state, start)
    ensures status != LineOk ==> Verdict(raw, 0, RequestLine) == if status == LineOpen then NoRequest else BadRequest
  {
    ScanFound(b0, b1, raw, checked0, state, start, status, checked);
    IncompleteLine(raw, start, state);
    if status == LineOk {
      LineTaken(b0, b1, raw, checked0, state, start, checked - 2);
    } else {
      StillReady(b0, raw, checked0, state, start);
    }
  }

  lemma {:induction false} LineTaken(b0: seq<char>, b1: seq<char>, raw: seq<char>, checked: nat, state: CheckState,
                                     start: nat, j: nat)
    requires Ready(b0, raw, checked, state, start) && j == Stop(raw, start, |raw|) && StatusAt(raw, j, |raw|) == LineOk
    requires b1 == b0[j := '\0'][j + 1 := '\0']
    ensures At(b1, raw, start, state, j + 2)
  {
  }

  lemma {:induction false} StillReady(buf: seq<char>, raw: seq<char>, checked: nat, state: CheckState, start: nat)
    requires Ready(buf, raw, checked, state, start)
    ensures Ready(buf, raw, Stop(raw, start, |raw|), state, start)
  {
    ReadyScan(buf, raw, checked, state, start);
  }

  /** The parser has come to the complete line from start to checked. */
  ghost predicate At(buf: seq<char>, raw: seq<char>, start: nat, state: CheckState, checked: nat) {
    && start + 2 <= checked <= |raw| && Reaches(raw, 0, RequestLine, start, state)
    && Stop(raw, start, |raw|) == checked - 2 && StatusAt(raw, checked - 2, |raw|) == LineOk
    && Overwritten(buf, raw, start, checked - 2)
  }

  /** The line from start to j is intact, its CR and LF are NULs, and so is what follows intact. */
  ghost predicate Overwritten(buf: seq<char>, raw: seq<char>, start: nat, j: nat) {
    && j + 2 <= |raw| <= |buf| && Agree(buf, raw, start, j) && Agree(buf, raw, j + 2, |raw|)
    && buf[j] == '\0' && buf[j + 1] == '\0'
  }

  lemma {:induction false} StillIntact(b0: seq<char>, b1: seq<char>, raw: seq<char>, start: nat, j: nat)
    requires Overwritten(b0, raw, start, j) && |b1| == |b0| && Agree(b0, b1, j, |b0|)
    ensures j + 2 <= |raw| <= |b1| && Agree(b1, raw, j + 2, |raw|) && b1[j + 1] == '\0'
  {
  }

  lemma {:induction false} LineOutcome(b0: seq<char>, b1: seq<char>, raw: seq<char>, temp: nat, st: CheckState,
                                       next: nat, code: HttpCode, state: CheckState)
    requires At(b0, raw, temp, st, next) && |b1| == |b0| && Agree(b0, b1, next - 2, |b0|)
    requires LineStep(raw, temp, st) == if code == NoRequest then More(next, state) else Done(code)
    ensures if code == NoRequest then Ready(b1, raw, next, state, next) else Verdict(raw, 0, RequestLine) == code
  {
    if code == NoRequest {
      StillIntact(b0, b1, raw, temp, next - 2);
      PassedLine(b1, raw, temp, st, next, state);
    } else {
      DecidedLine(raw, temp, st, code);
    }
  }

  /** One complete line either decides the stream or leaves the parser ready behind it. */
  method TakeLine(buffer: array<char>, temp: nat, checkstate: CheckState, start: nat, ghost raw: seq<char>)
    returns (code: HttpCode, state: CheckState)
    requires At(buffer[..], raw, temp, checkstate, start)
    modifies buffer
    ensures if code == NoRequest then Ready(buffer[..], raw, start, state, start)
            else Verdict(raw, 0, RequestLine) == code
  {
    ghost var b0 := buffer[..];
    code, state := HandleLine(buffer, temp, checkstate, raw, start - 2);
    LineOutcome(b0, buffer[..], raw, temp, checkstate, start, code, state);
  }

  /** One turn of parse_content's loop: done with the verdict of all bytes so far, or ready
      behind one more line. */
  method ParseNext(buffer: array<char>, checked_index: nat, checkstate: CheckState, read_index: nat,
                   start_line: nat, ghost raw: seq<char>)
    returns (done: bool, code: HttpCode, checked: nat, state: CheckState, start: nat)
    requires read_index == |raw| && Ready(buffer[..], raw, checked_index, checkstate, start_line)
    modifies buffer
    ensures done ==> code == Verdict(raw, 0, RequestLine)
    ensures !done ==> start_line < start
    ensures !done || code == NoRequest ==> Ready(buffer[..], raw, checked, state, start)
  {
    state, start := checkstate, start_line;
    var linestatus;
    linestatus, checked := ScanLine(buffer, checked_index, read_index, raw, state, start);
    if linestatus != LineOk {
      return true, if linestatus == LineOpen then NoRequest else BadRequest, checked, state, start;
    }
    start := checked;
    code, state := TakeLine(buffer, start_line, state, start, raw);
    done := code != NoRequest;
  }

  /** parse_content: takes complete lines out of the buffer until it has a verdict
      or runs out of bytes. */
  method ParseContent(buffer: array<char>, checked_index: nat, checkstate: CheckState, read_index: nat,
                      start_line: nat, ghost raw: seq<char>)
    returns (code: HttpCode, checked: nat, state: CheckState, start: nat)
    requires read_index == |raw| && Ready(buffer[..], raw, checked_index, checkstate, start_line)
    modifies buffer
    ensures code == Verdict(raw, 0, RequestLine)
    ensures code == NoRequest ==> Ready(buffer[..], raw, checked, state, start)
  {
    checked, state, start := checked_index, checkstate, start_line;
    var done := false;
    code := NoRequest;
    while !done
      invariant done ==> code == Verdict(raw, 0, RequestLine)
      invariant !done || code == NoRequest ==> Ready(buffer[..], raw, checked, state, start)
      decreases !done, |raw| - start
    {
      done, code, checked, state, start := ParseNext(buffer, checked, state, read_index, start, raw);
    }
  }

  /** Bytes that arrive leave the parser ready. */
  lemma {:induction false} ReadyForMore(buf: seq<char>, raw: seq<char>, buf': seq<char>, raw': seq<char>,
                                        checked: nat, state: CheckState, start: nat)
    requires Ready(buf, raw, checked, state, start) && raw <= raw' && |raw'| <= |buf'|
    requires Agree(buf, buf', 0, |raw|) && Agree(buf', raw', |raw|, |raw'|)
    ensures Ready(buf', raw', checked, state, start)
  {
    ReachesOfPrefix(raw, raw', 0, RequestLine, start, state);
  }

  function Min(a: nat, b: nat): nat {
    if a <= b then a else b
  }

  function Sum(cuts: seq<nat>): nat {
    if cuts == [] then 0 else Sum(cuts[..|cuts| - 1]) + cuts[|cuts| - 1]
  }

  /** How many bytes of the stream reach the buffer in receives of these sizes. */
  function Received(stream: seq<char>, cuts: seq<nat>): nat {
    Min(Sum(cuts), Min(|stream|, 4096))
  }

  lemma {:induction false} SumOfPrefix(cuts: seq<nat>, i: nat)
    requires i <= |cuts|
    ensures Sum(cuts[..i]) <= Sum(cuts)
    decreases |cuts| - i
  {
    if i < |cuts| {
      SumOfPrefix(cuts, i + 1);
      assert cuts[..i + 1][..i] == cuts[..i];
    } else {
      assert cuts[..i] == cuts;
    }
  }

  /** One turn of the receive loop: n more bytes of the stream arrive. */
  method Receive(buffer: array<char>, stream: seq<char>, read_index: nat, n: nat,
                 checked_index: nat, checkstate: CheckState, start_line: nat)
    returns (code: HttpCode, checked: nat, state: CheckState, start: nat)
    requires read_index + n <= |stream| && read_index + n <= buffer.Length
    requires Ready(buffer[..], stream[..read_index], checked_index, checkstate, start_line)
    modifies buffer
    ensures code == Verdict(stream[..read_index + n], 0, RequestLine)
    ensures code == NoRequest ==> Ready(buffer[..], stream[..read_index + n], checked, state, start)
  {
    ghost var buf, raw, raw' := buffer[..], stream[..read_index], stream[..read_index + n];
    forall k | read_index <= k < read_index + n {
      buffer[k] := stream[k];
    }
    ReadyForMore(buf, raw, buffer[..], raw', checked_index, checkstate, start_line);
    code, checked, state, start := ParseContent(buffer, checked_index, checkstate, read_index + n, start_line, raw');
  }

  lemma {:induction false} ReceivedNext(stream: seq<char>, cuts: seq<nat>, i: nat)
    requires i < |cuts|
    ensures var r := Received(stream, cuts[..i]);
            r <= |stream| && r <= BUFFER_SIZE
            && Received(stream, cuts[..i + 1]) == r + Min(cuts[i], Min(BUFFER_SIZE - r, |stream| - r))
    ensures Received(stream, cuts[..i + 1]) <= Received(stream, cuts)
  {
    assert cuts[..i + 1][..i] == cuts[..i];
    SumOfPrefix(cuts, i + 1);
  }

  /** One turn of the receive loop, for the i-th receive. */
  method ReceiveNext(buffer: array<char>, stream: seq<char>, cuts: seq<nat>, i: nat, read0: nat,
                     checked_index: nat, checkstate: CheckState, start_line: nat)
    returns (code: HttpCode, read: nat, checked: nat, state: CheckState, start: nat)
    requires buffer.Length == BUFFER_SIZE && i < |cuts| && read0 == Received(stream, cuts[..i])
    requires Ready(buffer[..], stream[..read0], checked_index, checkstate, start_line)
    requires Verdict(stream[..read0], 0, RequestLine) == NoRequest
    modifies buffer
    ensures read == Received(stream, cuts[..i + 1]) <= Received(stream, cuts)
    ensures code == Verdict(stream[..read], 0, RequestLine)
    ensures code == NoRequest ==> Ready(buffer[..], stream[..read], checked, state, start)
  {
    ReceivedNext(stream, cuts, i);
    code, read, checked, state, start := NoRequest, read0, checked_index, checkstate, start_line;
    var data_read := Min(cuts[i], Min(BUFFER_SIZE - read, |stream| - read));
    if data_read > 0 {
      code, checked, state, start := Receive(buffer, stream, read, data_read, checked, state, start);
      read := read + data_read;
    }
  }

  /** The receive loop of main: stops at the first verdict, or when nothing more
      arrives; read counts the bytes received by then. */
  method ReceiveLoop(buffer: array<char>, stream: seq<char>, cuts: seq<nat>) returns (code: HttpCode, read: nat)
    requires buffer.Length == BUFFER_SIZE && Ready(buffer[..], stream[..0], 0, RequestLine, 0)
    requires Verdict(stream[..0], 0, RequestLine) == NoRequest
    modifies buffer
    ensures read <= Received(stream, cuts) && code == Verdict(stream[..read], 0, RequestLine)
    ensures code == NoRequest ==> read == Received(stream, cuts)
  {
    var checked_index, start_line, checkstate := 0, 0, RequestLine;
    code, read := NoRequest, 0;
    for i := 0 to |cuts|
      invariant read == Received(stream, cuts[..i]) && code == NoRequest == Verdict(stream[..read], 0, RequestLine)
      invariant Ready(buffer[..], stream[..read], checked_index, checkstate, start_line)
    {
      code, read, checked_index, checkstate, start_line :=
        ReceiveNext(buffer, stream, cuts, i, read, checked_index, checkstate, start_line);
      if code != NoRequest {
        return;
      }
    }
    assert cuts[..|cuts|] == cuts;
  }

  /** One connection: the stream arrives cut into receives of the given sizes.  The
      verdict is that of the bytes received, read in one piece, however they were
      cut. */
  method Serve(stream: seq<char>, cuts: seq<nat>) returns (code: HttpCode)
    requires forall i :: 0 <= i < |cuts| ==> cuts[i] > 0
    ensures code == Verdict(stream[..Received(stream, cuts)], 0, RequestLine)
  {
    var buffer := new char[BUFFER_SIZE](_ => '\0');
    var read;
    code, read := ReceiveLoop(buffer, stream, cuts);
    if code != NoRequest {
      VerdictOfPrefix(stream[..read], stream[..Received(stream, cuts)], 0, RequestLine);
    }
  }

  // ---------------------------------------------------------------- accepted, pending and rejected streams

  /** [p, e) is a line ended by CR LF, free of both inside. */
  ghost predicate IsLine(s: seq<char>, p: nat, e: nat) {
    && p <= e && e + 1 < |s| && s[e] == '\r' && s[e + 1] == '\n'
    && forall k :: p <= k < e ==> s[k] != '\r' && s[k] != '\n'
  }

  /** From p on there is no line end yet, but for a CR that may still get its LF. */
  ghost predicate OpenFrom(s: seq<char>, p: nat) {
    p <= |s| && forall k :: p <= k < |s| ==> s[k] != '\n' && (s[k] != '\r' || k == |s| - 1)
  }

  /** The line from p is broken off at j by an LF without CR, or a CR followed by another byte. */
  ghost predicate BrokenAt(s: seq<char>, p: nat, j: nat) {
    && p <= j < |s| && (forall k :: p <= k < j ==> s[k] != '\r' && s[k] != '\n')
    && (s[j] == '\n' || (s[j] == '\r' && j + 1 < |s| && s[j + 1] != '\n'))
  }

  /** What a C function sees of the line [p, e) ends at c: at its first NUL, or with the line. */
  ghost predicate SeenUpTo(s: seq<char>, p: nat, e: nat, c: nat) {
    && p <= c <= e <= |s| && (c < e ==> s[c] == '\0')
    && forall k :: p <= k < c ==> s[k] != '\0'
  }

  /** The line [0, e) is a request line of the grammar. */
  ghost predicate GoodRequestLine(s: seq<char>, e: nat) {
    exists c: nat, x: nat, y: nat, z: nat, w: nat :: SeenUpTo(s, 0, e, c) && RequestLineParts(s, 0, x, y, z, w, c)
  }

  /** Nothing is seen of the line [p, e). */
  predicate SeenEmpty(s: seq<char>, p: nat, e: nat) {
    p == e || (p < |s| && s[p] == '\0')
  }

  /** Header lines that are not empty from p on; ends lists where they end, and q is behind them. */
  ghost predicate HeaderLines(s: seq<char>, p: nat, ends: seq<nat>, q: nat)
    decreases |ends|
  {
    if ends == [] then p == q
    else IsLine(s, p, ends[0]) && !SeenEmpty(s, p, ends[0]) && HeaderLines(s, ends[0] + 2, ends[1..], q)
  }

  /** A request line of the grammar up to e, and header lines up to q. */
  ghost predicate Begun(s: seq<char>, e: nat, ends: seq<nat>, q: nat) {
    IsLine(s, 0, e) && GoodRequestLine(s, e) && HeaderLines(s, e + 2, ends, q)
  }

  lemma {:induction false} LineIsStep(s: seq<char>, p: nat)
    requires p <= |s|
    ensures var j := Stop(s, p, |s|);
            match StatusAt(s, j, |s|)
            case LineOk => IsLine(s, p, j)
            case LineOpen => OpenFrom(s, p)
            case LineBad => BrokenAt(s, p, j)
  {
    FirstFound(s, p, |s|, LineChar);
    assert forall k :: p <= k < Stop(s, p, |s|) ==> !LineChar(s[k]);
  }

  lemma {:induction false} LineEnds(s: seq<char>, p: nat, e: nat)
    requires IsLine(s, p, e)
    ensures Stop(s, p, |s|) == e && StatusAt(s, e, |s|) == LineOk
  {
    FirstIs(s, p, |s|, LineChar, e);
  }

  lemma {:induction false} LineBreaks(s: seq<char>, p: nat, j: nat)
    requires BrokenAt(s, p, j)
    ensures Stop(s, p, |s|) == j && StatusAt(s, j, |s|) == LineBad
  {
    FirstIs(s, p, |s|, LineChar, j);
  }

  lemma {:induction false} LineStaysOpen(s: seq<char>, p: nat)
    requires OpenFrom(s, p)
    ensures StatusAt(s, Stop(s, p, |s|), |s|) == LineOpen
  {
    FirstFound(s, p, |s|, LineChar);
  }

  lemma {:induction false} SeenIsFirstNul(s: seq<char>, p: nat, e: nat)
    requires p <= e <= |s|
    ensures SeenUpTo(s, p, e, FirstNul(s, p, e))
    ensures p < |s| ==> (FirstNul(s, p, e) == p <==> SeenEmpty(s, p, e))
  {
    FirstFound(s, p, e, Nul);
  }

  lemma {:induction false} SeenIs(s: seq<char>, p: nat, e: nat, c: nat)
    requires SeenUpTo(s, p, e, c)
    ensures c == FirstNul(s, p, e)
  {
    FirstIs(s, p, e, Nul, c);
  }

  /** The verdict on a request line is that of the grammar on what is seen of it. */
  lemma {:induction false} GoodIsValid(s: seq<char>, e: nat)
    requires e <= |s|
    ensures GoodRequestLine(s, e) <==> ValidRequestLine(s, 0, FirstNul(s, 0, e))
  {
    var c := FirstNul(s, 0, e);
    SeenIsFirstNul(s, 0, e);
    RequestLineGrammar(s, 0, c);
    if GoodRequestLine(s, e) {
      var d: nat, x: nat, y: nat, z: nat, w: nat :| SeenUpTo(s, 0, e, d) && RequestLineParts(s, 0, x, y, z, w, d);
      SeenIs(s, 0, e, d);
    }
  }

  /** What a stream can be, by the shape of its lines. */
  datatype Shape = Accepted | Pending | Rejected

  /** Behind the header lines: an empty line, no line end, or a broken line. */
  ghost predicate Closes(s: seq<char>, q: nat, shape: Shape) {
    match shape
    case Accepted => exists e :: IsLine(s, q, e) && SeenEmpty(s, q, e)
    case Pending => OpenFrom(s, q)
    case Rejected => exists j :: BrokenAt(s, q, j)
  }

  function Outcome(shape: Shape): HttpCode {
    match shape
    case Accepted => GetRequest
    case Pending => NoRequest
    case Rejected => BadRequest
  }

  lemma {:induction false} ClosedVerdict(s: seq<char>, q: nat, shape: Shape)
    requires q <= |s| && Closes(s, q, shape)
    ensures Verdict(s, q, Header) == Outcome(shape)
  {
    match shape
    case Accepted =>
      var e: nat :| IsLine(s, q, e) && SeenEmpty(s, q, e);
      LineEnds(s, q, e);
      SeenIsFirstNul(s, q, e);
    case Pending => LineStaysOpen(s, q);
    case Rejected =>
      var j: nat :| BrokenAt(s, q, j);
      LineBreaks(s, q, j);
  }

  lemma {:induction false} HeaderVerdict(s: seq<char>, p: nat, ends: seq<nat>, q: nat, shape: Shape)
    requires p <= |s| && HeaderLines(s, p, ends, q) && Closes(s, q, shape)
    ensures Verdict(s, p, Header) == Outcome(shape)
    decreases |ends|
  {
    if ends == [] {
      ClosedVerdict(s, p, shape);
    } else {
      LineEnds(s, p, ends[0]);
      SeenIsFirstNul(s, p, ends[0]);
      HeaderVerdict(s, ends[0] + 2, ends[1..], q, shape);
    }
  }

  lemma {:induction false} HeaderShape(s: seq<char>, p: nat) returns (ends: seq<nat>, q: nat, shape: Shape)
    requires p <= |s|
    ensures HeaderLines(s, p, ends, q) && q <= |s| && Closes(s, q, shape)
    decreases |s| - p
  {
    var j := Stop(s, p, |s|);
    LineIsStep(s, p);
    ends, q := [], p;
    match StatusAt(s, j, |s|)
    case LineOpen => shape := Pending;
    case LineBad => shape := Rejected;
    case LineOk =>
      if SeenEmpty(s, p, j) {
        shape := Accepted;
      } else {
        var rest;
        rest, q, shape := HeaderShape(s, j + 2);
        ends := [j] + rest;
        assert ends[1..] == rest;
      }
  }

  /** A stream is decided or undecided in its first line ... */
  ghost predicate FirstLineShape(s: seq<char>, shape: Shape) {
    || (shape == Pending && OpenFrom(s, 0))
    || (shape == Rejected && exists j: nat :: BrokenAt(s, 0, j))
    || (shape == Rejected && exists e: nat :: IsLine(s, 0, e) && !GoodRequestLine(s, e))
  }

  /** ... or begun and closed. */
  ghost predicate HasShape(s: seq<char>, shape: Shape) {
    FirstLineShape(s, shape) || exists e: nat, ends, q: nat :: Begun(s, e, ends, q) && Closes(s, q, shape)
  }

  lemma {:induction false} RequestLineStep(s: seq<char>, e: nat)
    requires IsLine(s, 0, e)
    ensures LineStep(s, 0, RequestLine) == if GoodRequestLine(s, e) then More(e + 2, Header) else Done(BadRequest)
  {
    LineEnds(s, 0, e);
    GoodIsValid(s, e);
  }

  lemma {:induction false} FirstLineVerdict(s: seq<char>, shape: Shape)
    requires FirstLineShape(s, shape)
    ensures Verdict(s, 0, RequestLine) == Outcome(shape)
  {
    if OpenFrom(s, 0) {
      LineStaysOpen(s, 0);
    }
    if j: nat :| BrokenAt(s, 0, j) {
      LineBreaks(s, 0, j);
    }
    if e: nat :| IsLine(s, 0, e) && !GoodRequestLine(s, e) {
      RequestLineStep(s, e);
    }
  }

  lemma {:induction false} BegunVerdict(s: seq<char>, e: nat, ends: seq<nat>, q: nat, shape: Shape)
    requires Begun(s, e, ends, q) && Closes(s, q, shape)
    ensures Verdict(s, 0, RequestLine) == Outcome(shape)
  {
    RequestLineStep(s, e);
    HeaderVerdict(s, e + 2, ends, q, shape);
  }

  lemma {:induction false} ShapeVerdict(s: seq<char>, shape: Shape)
    requires HasShape(s, shape)
    ensures Verdict(s, 0, RequestLine) == Outcome(shape)
  {
    if e: nat, ends, q: nat :| Begun(s, e, ends, q) && Closes(s, q, shape) {
      BegunVerdict(s, e, ends, q, shape);
    } else {
      FirstLineVerdict(s, shape);
    }
  }

  lemma {:induction false} SomeShape(s: seq<char>) returns (shape: Shape)
    ensures HasShape(s, shape)
  {
    var j := Stop(s, 0, |s|);
    LineIsStep(s, 0);
    match StatusAt(s, j, |s|)
    case LineOpen => shape := Pending;
    case LineBad => shape := Rejected;
    case LineOk =>
      if GoodRequestLine(s, j) {
        var ends, q;
        ends, q, shape := HeaderShape(s, j + 2);
        assert Begun(s, j, ends, q);
      } else {
        shape := Rejected;
      }
  }

  /** A stream gets the verdict of its shape and of no other: it is accepted, pending or
      rejected exactly as its lines say. */
  lemma {:induction false} StreamVerdict(s: seq<char>, shape: Shape)
    ensures Verdict(s, 0, RequestLine) == Outcome(shape) <==> HasShape(s, shape)
  {
    var actual := SomeShape(s);
    ShapeVerdict(s, actual);
    if HasShape(s, shape) {
      ShapeVerdict(s, shape);
    }
  }

  /** A stream is accepted exactly when it starts with a request line of the grammar, header
      lines and an empty line. */
  lemma {:induction false} AcceptedStreams(s: seq<char>)
    ensures Verdict(s, 0, RequestLine) == GetRequest <==>
              exists e: nat, ends, q: nat, f: nat ::
                Begun(s, e, ends, q) && IsLine(s, q, f) && SeenEmpty(s, q, f)
  {
    StreamVerdict(s, Accepted);
    if HasShape(s, Accepted) {
      var e: nat, ends, q: nat :| Begun(s, e, ends, q) && Closes(s, q, Accepted);
      var f: nat :| IsLine(s, q, f) && SeenEmpty(s, q, f);
    }
    if e: nat, ends, q: nat, f: nat :| Begun(s, e, ends, q) && IsLine(s, q, f) && SeenEmpty(s, q, f) {
      assert Closes(s, q, Accepted);
    }
  }

  /** The shortest request there is, whatever the cutting. */
  lemma {:induction false} ShortRequest()
    ensures Verdict("GET / HTTP/1.1\r\n\r\n", 0, RequestLine) == GetRequest
  {
    var s := "GET / HTTP/1.1\r\n\r\n";
    assert SeenUpTo(s, 0, 14, 14) && RequestLineParts(s, 0, 3, 4, 5, 6, 14);
    assert IsLine(s, 0, 14) && IsLine(s, 16, 16) && SeenEmpty(s, 16, 16);
    assert Begun(s, 14, [], 16);
    AcceptedStreams(s);
  }
}
