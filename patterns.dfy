/**
 * The two regular expressions of the service and the boolean match call.
 *
 * The email pattern `[a-zA-Z0-9._%+-]+@[a-zA-Z0-9.-]+\.[a-zA-Z]{2,}` has no
 * anchors, so matching it means finding it somewhere in the string.  The
 * notification pattern
 * `^([a-zA-Z0-9_.,!?-]+\s?)*(@[a-zA-Z0-9._%+-]+@[a-zA-Z0-9.-]+\.[a-zA-Z]{2,}\s*)*$`
 * is anchored at both ends.  Each pattern has a specification predicate that
 * follows the structure of the regular expression, and a recogniser (a
 * compiled function) proved to decide it.
 */
module Patterns {

  /** The character classes used by the two patterns (all ASCII, as in RE2). */
  datatype CharClass =
    | Letter       // [a-zA-Z]
    | Local        // [a-zA-Z0-9._%+-]
    | Domain       // [a-zA-Z0-9.-]
    | Word         // [a-zA-Z0-9_.,!?-]
    | Space        // \s, which RE2 defines as [\t\n\f\r ]
    | WordOrSpace  // what the plain-words part of a notification is made of

  predicate IsLetter(c: char) { 'a' <= c <= 'z' || 'A' <= c <= 'Z' }

  predicate IsDigit(c: char) { '0' <= c <= '9' }

  predicate InClass(c: char, k: CharClass) {
    match k
    case Letter => IsLetter(c)
    case Local => IsLetter(c) || IsDigit(c) || c == '.' || c == '_' || c == '%' || c == '+' || c == '-'
    case Domain => IsLetter(c) || IsDigit(c) || c == '.' || c == '-'
    case Word => IsLetter(c) || IsDigit(c) || c == '_' || c == '.' || c == ',' || c == '!' || c == '?' || c == '-'
    case Space => c == ' ' || c == '\t' || c == '\n' || c == '\U{C}' || c == '\r'
    case WordOrSpace =>
      || IsLetter(c) || IsDigit(c) || c == '_' || c == '.' || c == ',' || c == '!' || c == '?' || c == '-'
      || c == ' ' || c == '\t' || c == '\n' || c == '\U{C}' || c == '\r'
  }

  predicate AllIn(s: string, k: CharClass) {
    forall i | 0 <= i < |s| :: InClass(s[i], k)
  }

  // ---------------------------------------------------------------------------
  // The email pattern
  // ---------------------------------------------------------------------------

  /**
   * `t` as a whole is `[a-zA-Z0-9._%+-]+@[a-zA-Z0-9.-]+\.[a-zA-Z]{2,}`, with the
   * '@' at index `a` and the dot before the top-level domain at index `d`.
   */
  predicate EmailSplitAt(t: string, a: int, d: int) {
    && 0 < a && a + 1 < d && d + 2 < |t|
    && t[a] == '@' && t[d] == '.'
    && AllIn(t[..a], Local) && AllIn(t[a + 1..d], Domain) && AllIn(t[d + 1..], Letter)
  }

  /** The whole of `t` matches the email pattern. */
  ghost predicate IsEmailShaped(t: string) {
    exists a, d :: EmailSplitAt(t, a, d)
  }

  /** The unanchored email pattern matches `s`: some contiguous substring has the email shape. */
  ghost predicate HasEmail(s: string) {
    exists i, j | 0 <= i <= j <= |s| :: IsEmailShaped(s[i..j])
  }

  /** A '.' at `q` with two letters after it, reached from `k` through domain characters only. */
  predicate DotTldAt(s: string, k: int, q: int) {
    && 0 <= k < q && q + 2 < |s|
    && s[q] == '.' && AllIn(s[k..q], Domain) && IsLetter(s[q + 1]) && IsLetter(s[q + 2])
  }

  /** Some dot from `k` on can end a domain: `[a-zA-Z0-9.-]+\.[a-zA-Z]{2}` matches at `k`. */
  ghost predicate TldAfter(s: string, k: int) {
    exists q :: DotTldAt(s, k, q)
  }

  /** An '@' at `p` that has a local character before it and a domain with a dot and two letters after it. */
  ghost predicate AnchorAt(s: string, p: int) {
    0 < p < |s| && s[p] == '@' && InClass(s[p - 1], Local) && TldAfter(s, p + 1)
  }

  /** Extending a slice by one character appends that character. */
  lemma SliceSnoc(s: string, k: nat, j: nat)
    requires k <= j < |s|
    ensures s[k..j + 1] == s[k..j] + [s[j]]
  {
  }

  /** A slice of a slice is a slice of the whole string. */
  lemma SliceOfSlice(s: string, i: nat, j: nat, x: nat, y: nat)
    requires i <= j <= |s| && x <= y <= j - i
    ensures s[i..j][x..y] == s[i + x..i + y]
  {
    assert |s[i..j][x..y]| == y - x == |s[i + x..i + y]|;
    forall n | 0 <= n < y - x ensures s[i..j][x..y][n] == s[i + x..i + y][n] {
    }
  }

  /** A substring with the email shape puts an anchor at its '@'. */
  lemma AnchorOfEmail(s: string, i: int, j: int)
    requires 0 <= i <= j <= |s| && IsEmailShaped(s[i..j])
    ensures exists p :: AnchorAt(s, p)
  {
    var t := s[i..j];
    var a, d :| EmailSplitAt(t, a, d);
    var p, q := i + a, i + d;
    assert s[p - 1] == t[..a][a - 1];
    SliceOfSlice(s, i, j, a + 1, d);
    assert s[q + 1] == t[d + 1..][0] && s[q + 2] == t[d + 1..][1];
    assert DotTldAt(s, p + 1, q);
    assert AnchorAt(s, p);
  }

  /** An anchor at `p` is the '@' of the substring from just before it to just after the two letters. */
  lemma EmailOfAnchor(s: string, p: int)
    requires AnchorAt(s, p)
    ensures HasEmail(s)
  {
    var q :| DotTldAt(s, p + 1, q);
    var t := s[p - 1..q + 3];
    assert t[..1] == [s[p - 1]];
    SliceOfSlice(s, p - 1, q + 3, 2, q - p + 1);
    assert t[q - p + 2..] == [s[q + 1], s[q + 2]];
    assert EmailSplitAt(t, 1, q - p + 1);
    assert IsEmailShaped(s[p - 1..q + 3]);
  }

  /** The email pattern occurs in `s` exactly when some '@' of `s` is an anchor. */
  lemma HasEmailIffAnchor(s: string)
    ensures HasEmail(s) <==> exists p :: AnchorAt(s, p)
  {
    if HasEmail(s) {
      var i, j :| 0 <= i <= j <= |s| && IsEmailShaped(s[i..j]);
      AnchorOfEmail(s, i, j);
    }
    if p :| AnchorAt(s, p) {
      EmailOfAnchor(s, p);
    }
  }

  /**
   * Scans the domain characters from `j` on (those from `k` to `j` are already
   * known to be domain characters) for a dot, after at least one domain
   * character, that is followed by two letters.
   */
  function ScanTld(s: string, k: nat, j: nat): (r: bool)
    requires k <= j <= |s| && AllIn(s[k..j], Domain)
    ensures r <==> exists q :: j <= q && DotTldAt(s, k, q)
    decreases |s| - j
  {
    if j == |s| || !InClass(s[j], Domain) then
      NoTldPast(s, k, j);
      false
    else if k < j && j + 2 < |s| && s[j] == '.' && IsLetter(s[j + 1]) && IsLetter(s[j + 2]) then
      assert DotTldAt(s, k, j);
      true
    else
      SliceSnoc(s, k, j);
      var r := ScanTld(s, k, j + 1);
      assert !DotTldAt(s, k, j);
      assert r <==> exists q :: j <= q && DotTldAt(s, k, q) by {
        forall q | j <= q && DotTldAt(s, k, q) ensures j + 1 <= q { }
      }
      r
  }

  /** Once the domain characters stop at `j`, no dot at or after `j` can end the domain. */
  lemma NoTldPast(s: string, k: nat, j: nat)
    requires k <= j <= |s|
    requires j == |s| || !InClass(s[j], Domain)
    ensures forall q :: j <= q ==> !DotTldAt(s, k, q)
  {
    forall q | j <= q ensures !DotTldAt(s, k, q) {
      if k <= j < q <= |s| {
        assert s[k..q][j - k] == s[j];
      }
    }
  }

  /** Looks for an anchor at `p` or later. */
  function ScanAnchors(s: string, p: nat): (r: bool)
    requires p <= |s|
    ensures r <==> exists p' :: p <= p' && AnchorAt(s, p')
    decreases |s| - p
  {
    if p == |s| then
      false
    else if 0 < p && s[p] == '@' && InClass(s[p - 1], Local) && ScanTld(s, p + 1, p + 1) then
      assert AnchorAt(s, p);
      true
    else
      var r := ScanAnchors(s, p + 1);
      assert !AnchorAt(s, p);
      assert r <==> exists p' :: p <= p' && AnchorAt(s, p') by {
        forall p' | p <= p' && AnchorAt(s, p') ensures p + 1 <= p' { }
      }
      r
  }

  /** The email check: decides the unanchored email pattern. */
  function ContainsEmail(s: string): (r: bool)
    ensures r <==> HasEmail(s)
  {
    HasEmailIffAnchor(s);
    ScanAnchors(s, 0)
  }

  /** Because the email pattern is unanchored, extra text around a match keeps it matching. */
  lemma HasEmailWrapped(u: string, s: string, v: string)
    requires HasEmail(s)
    ensures HasEmail(u + s + v)
  {
    var i, j :| 0 <= i <= j <= |s| && IsEmailShaped(s[i..j]);
    assert (u + s + v)[|u| + i..|u| + j] == s[i..j];
  }

  // ---------------------------------------------------------------------------
  // The notification pattern
  // ---------------------------------------------------------------------------

  /** `t` is one repetition of `[a-zA-Z0-9_.,!?-]+\s?`. */
  ghost predicate WordPiece(t: string) {
    |t| > 0 && (AllIn(t, Word) || (|t| > 1 && AllIn(t[..|t| - 1], Word) && InClass(t[|t| - 1], Space)))
  }

  /** `s` matches `([a-zA-Z0-9_.,!?-]+\s?)*`. */
  ghost predicate Words(s: string)
    decreases |s|
  {
    s == [] || exists i :: 0 < i <= |s| && WordPiece(s[..i]) && Words(s[i..])
  }

  /** `t` is one repetition of `@` email `\s*`. */
  ghost predicate MentionPiece(t: string) {
    exists j :: 1 <= j <= |t| && t[0] == '@' && IsEmailShaped(t[1..j]) && AllIn(t[j..], Space)
  }

  /** `s` matches `(@[a-zA-Z0-9._%+-]+@[a-zA-Z0-9.-]+\.[a-zA-Z]{2,}\s*)*`. */
  ghost predicate Mentions(s: string)
    decreases |s|
  {
    s == [] || exists i :: 0 < i <= |s| && MentionPiece(s[..i]) && Mentions(s[i..])
  }

  /** The whole of `s` matches the anchored notification pattern. */
  ghost predicate NotificationShape(s: string) {
    exists k :: 0 <= k <= |s| && Words(s[..k]) && Mentions(s[k..])
  }

  /** The first index at or after `k` whose character is not in class `c`. */
  function RunEnd(s: string, k: nat, c: CharClass): (r: nat)
    requires k <= |s|
    ensures k <= r <= |s| && AllIn(s[k..r], c) && (r < |s| ==> !InClass(s[r], c))
    decreases |s| - k
  {
    if k == |s| || !InClass(s[k], c) then k
    else
      var r := RunEnd(s, k + 1, c);
      assert s[k..r] == [s[k]] + s[k + 1..r];
      r
  }

  /** A run of class `c` from `k` that stops at a character outside `c` (or at the end) is the one RunEnd finds. */
  lemma RunEndIs(s: string, k: nat, c: CharClass, r: nat)
    requires k <= r <= |s| && AllIn(s[k..r], c) && (r < |s| ==> !InClass(s[r], c))
    ensures RunEnd(s, k, c) == r
  {
    var e := RunEnd(s, k, c);
  }

  /** The plain-words part: every whitespace character directly follows a word character. */
  predicate WordsOk(w: string) {
    forall i | 0 <= i < |w| :: InClass(w[i], Word) || (0 < i && InClass(w[i], Space) && InClass(w[i - 1], Word))
  }

  /** `m[k..b]`, a run of domain characters, ends with a dot and at least two letters, with something before the dot. */
  predicate DomainTldSpan(m: string, k: int, b: int)
    requires 0 <= k <= b <= |m|
  {
    exists d | k < d < b - 2 :: m[d] == '.' && AllIn(m[d + 1..b], Letter)
  }

  /**
   * Reads a sequence of mentions: '@', the local part up to the second '@', the
   * domain up to the first non-domain character, then any whitespace.
   */
  function MentionsOk(m: string): bool
    decreases |m|
  {
    if m == [] then true
    else if m[0] != '@' then false
    else
      var a := RunEnd(m, 1, Local);
      if a == 1 || a == |m| || m[a] != '@' then false
      else
        var b := RunEnd(m, a + 1, Domain);
        if !DomainTldSpan(m, a + 1, b) then false
        else MentionsOk(m[RunEnd(m, b, Space)..])
  }

  /** The notification check: decides the anchored notification pattern. */
  function IsNotification(s: string): (r: bool)
    ensures r <==> NotificationShape(s)
  {
    var k := RunEnd(s, 0, WordOrSpace);
    NotificationSplit(s, k);
    WordsOk(s[..k]) && MentionsOk(s[k..])
  }

  /** The pattern argument of ValidatePattern. */
  datatype Pattern = EmailPattern | NotificationPattern

  /** Whether the pattern matches the string, as Go's regexp MatchString answers it. */
  function ValidatePattern(pattern: Pattern, str: string): (r: bool)
    ensures pattern == EmailPattern ==> (r <==> HasEmail(str))
    ensures pattern == NotificationPattern ==> (r <==> NotificationShape(str))
  {
    match pattern
    case EmailPattern => ContainsEmail(str)
    case NotificationPattern => IsNotification(str)
  }

  // ---------------------------------------------------------------------------
  // Correctness of the notification recogniser
  // ---------------------------------------------------------------------------

  /** The plain-words grammar is the character-level condition WordsOk. */
  lemma WordsIff(w: string)
    ensures Words(w) <==> WordsOk(w)
  {
    if Words(w) { WordsAreOk(w); }
    if WordsOk(w) { OkAreWords(w); }
  }

  /** Text matching the plain-words grammar satisfies WordsOk. */
  lemma {:induction false} WordsAreOk(w: string)
    requires Words(w)
    ensures WordsOk(w)
    decreases |w|
  {
    if w != [] {
      var i :| 0 < i <= |w| && WordPiece(w[..i]) && Words(w[i..]);
      WordsAreOk(w[i..]);
      forall x | 0 <= x < |w|
        ensures InClass(w[x], Word) || (0 < x && InClass(w[x], Space) && InClass(w[x - 1], Word))
      {
        if x < i {
          assert w[..i][x] == w[x];
          if x > 0 { assert w[..i][x - 1] == w[x - 1]; }
          if !AllIn(w[..i], Word) {
            if x < i - 1 { assert w[..i][..i - 1][x] == w[x]; }
            if x == i - 1 { assert w[..i][..i - 1][x - 1] == w[x - 1]; }
          }
        } else {
          assert w[i..][x - i] == w[x];
          if x > i { assert w[i..][x - i - 1] == w[x - 1]; }
        }
      }
    }
  }

  /** Text satisfying WordsOk matches the plain-words grammar. */
  lemma {:induction false} OkAreWords(w: string)
    requires WordsOk(w)
    ensures Words(w)
    decreases |w|
  {
    if w != [] {
      assert InClass(w[0], Word);
      var i := if |w| > 1 && InClass(w[1], Space) then 2 else 1;
      assert WordPiece(w[..i]) by {
        if i == 2 { assert w[..i][..1] == [w[0]]; }
      }
      assert WordsOk(w[i..]) by {
        forall x | 0 <= x < |w[i..]|
          ensures InClass(w[i..][x], Word) || (0 < x && InClass(w[i..][x], Space) && InClass(w[i..][x - 1], Word))
        {
          assert w[i..][x] == w[x + i];
          if x > 0 { assert w[i..][x - 1] == w[x + i - 1]; }
          if x == 0 {
            assert InClass(w[i], Word);
          }
        }
      }
      OkAreWords(w[i..]);
    }
  }

  /** A nonempty sequence of mentions starts with '@'. */
  lemma MentionsStart(m: string)
    requires Mentions(m) && m != []
    ensures m[0] == '@'
  {
    var i :| 0 < i <= |m| && MentionPiece(m[..i]) && Mentions(m[i..]);
    assert m[..i][0] == m[0];
  }

  /** Everything after the '@' of an email is a domain character. */
  lemma EmailTailIsDomain(e: string, a: int, d: int)
    requires EmailSplitAt(e, a, d)
    ensures AllIn(e[a + 1..], Domain)
  {
    var dom := e[a + 1..];
    forall x | 0 <= x < |dom| ensures InClass(dom[x], Domain) {
      if a + 1 + x < d { assert e[a + 1..d][x] == dom[x]; }
      else if a + 1 + x > d { assert e[d + 1..][x - (d - a)] == dom[x]; }
    }
  }

  /** After the leading '@' of a mention, MentionsOk finds the email's '@' and the end of its domain. */
  lemma ParseMentionEmail(m: string, j: nat) returns (a: nat)
    requires 1 <= j <= |m| && IsEmailShaped(m[1..j])
    requires j < |m| ==> !InClass(m[j], Domain)
    ensures a == RunEnd(m, 1, Local) && 1 < a < |m| && m[a] == '@'
    ensures RunEnd(m, a + 1, Domain) == j && DomainTldSpan(m, a + 1, j)
  {
    var e := m[1..j];
    var a', d' :| EmailSplitAt(e, a', d');
    assert m[1..1 + a'] == e[..a'];
    RunEndIs(m, 1, Local, 1 + a');
    a := 1 + a';
    assert m[a] == e[a'];
    EmailTailIsDomain(e, a', d');
    assert m[a + 1..j] == e[a' + 1..];
    RunEndIs(m, a + 1, Domain, j);
    var d := 1 + d';
    assert m[d] == e[d'];
    assert m[d + 1..j] == e[d' + 1..];
    assert a + 1 < d < j - 2 && m[d] == '.' && AllIn(m[d + 1..j], Letter);
  }

  /** The email and the whitespace of a mention that is a prefix of `m`. */
  lemma MentionSplit(m: string, i: nat) returns (j: nat)
    requires 0 < i <= |m| && MentionPiece(m[..i])
    ensures 1 <= j <= i && m[0] == '@' && IsEmailShaped(m[1..j]) && AllIn(m[j..i], Space)
  {
    var t := m[..i];
    j :| 1 <= j <= |t| && t[0] == '@' && IsEmailShaped(t[1..j]) && AllIn(t[j..], Space);
    assert t[1..j] == m[1..j] && t[j..] == m[j..i];
  }

  /** One step of MentionsOk, once the three runs it reads are known. */
  lemma MentionsOkStep(m: string, a: nat, b: nat, c: nat)
    requires m != [] && m[0] == '@'
    requires a == RunEnd(m, 1, Local) && 1 < a < |m| && m[a] == '@'
    requires b == RunEnd(m, a + 1, Domain) && DomainTldSpan(m, a + 1, b)
    requires c == RunEnd(m, b, Space)
    ensures MentionsOk(m) == MentionsOk(m[c..])
  {
  }

  /**
   * One mention followed by '@' or by the end of the text is read by exactly one
   * step of MentionsOk, which then continues after it.
   */
  lemma ParseMention(m: string, i: nat)
    requires 0 < i <= |m| && MentionPiece(m[..i]) && (i < |m| ==> m[i] == '@')
    ensures m != [] && m[0] == '@'
    ensures MentionsOk(m) == MentionsOk(m[i..])
  {
    var j := MentionSplit(m, i);
    if j < i {
      assert m[j..i][0] == m[j];
    }
    var a := ParseMentionEmail(m, j);
    RunEndIs(m, j, Space, i);
    MentionsOkStep(m, a, j, i);
  }

  /** A local run, '@', and a domain run with a dot and two letters near its end, read as an email. */
  lemma EmailOfRuns(m: string, a: nat, b: nat, d: nat)
    requires 1 < a && a + 1 < d < b - 2 && b <= |m|
    requires AllIn(m[1..a], Local) && m[a] == '@' && AllIn(m[a + 1..b], Domain)
    requires m[d] == '.' && AllIn(m[d + 1..b], Letter)
    ensures EmailSplitAt(m[1..b], a - 1, d - 1)
  {
    var e := m[1..b];
    assert e[..a - 1] == m[1..a];
    assert AllIn(e[a..d - 1], Domain) by {
      var sub, run := e[a..d - 1], m[a + 1..b];
      forall x | 0 <= x < |sub| ensures InClass(sub[x], Domain) {
        assert sub[x] == e[a + x] == run[x];
      }
    }
    assert e[d..] == m[d + 1..b];
    assert e[a - 1] == m[a] && e[d - 1] == m[d];
  }

  /** The first step of a successful MentionsOk reads one mention. */
  lemma MentionOfParse(m: string) returns (c: nat)
    requires m != [] && MentionsOk(m)
    ensures 0 < c <= |m| && MentionPiece(m[..c]) && MentionsOk(m[c..])
  {
    var a := RunEnd(m, 1, Local);
    var b := RunEnd(m, a + 1, Domain);
    var d :| a + 1 < d < b - 2 && m[d] == '.' && AllIn(m[d + 1..b], Letter);
    c := RunEnd(m, b, Space);
    EmailOfRuns(m, a, b, d);
    var t := m[..c];
    assert t[1..b] == m[1..b];
    assert t[b..] == m[b..c];
    assert MentionPiece(t);
  }

  /** The mention grammar is what MentionsOk reads. */
  lemma {:induction false} MentionsIff(m: string)
    ensures Mentions(m) <==> MentionsOk(m)
    decreases |m|
  {
    if m == [] {
    } else if Mentions(m) {
      var i :| 0 < i <= |m| && MentionPiece(m[..i]) && Mentions(m[i..]);
      if i < |m| {
        MentionsStart(m[i..]);
        assert m[i..][0] == m[i];
      }
      ParseMention(m, i);
      MentionsIff(m[i..]);
    } else if MentionsOk(m) {
      var c := MentionOfParse(m);
      MentionsIff(m[c..]);
    }
  }

  /** The plain-words part ends at the first character that cannot belong to it. */
  lemma NotificationSplit(s: string, k: nat)
    requires k == RunEnd(s, 0, WordOrSpace)
    ensures NotificationShape(s) <==> WordsOk(s[..k]) && MentionsOk(s[k..])
  {
    if NotificationShape(s) {
      var k' :| 0 <= k' <= |s| && Words(s[..k']) && Mentions(s[k'..]);
      WordsIff(s[..k']);
      assert AllIn(s[..k'], WordOrSpace) by {
        forall x | 0 <= x < k' ensures InClass(s[..k'][x], WordOrSpace) { }
      }
      assert s[0..k'] == s[..k'];
      if k' < |s| {
        MentionsStart(s[k'..]);
        assert s[k'..][0] == s[k'];
      }
      RunEndIs(s, 0, WordOrSpace, k');
      MentionsIff(s[k'..]);
    }
    if WordsOk(s[..k]) && MentionsOk(s[k..]) {
      WordsIff(s[..k]);
      MentionsIff(s[k..]);
    }
  }

  /**
   * The empty notification matches the pattern. At the endpoint the binder
   * rejects an empty notification before the pattern runs.
   */
  lemma EmptyNotification()
    ensures NotificationShape("")
  {
    assert Words(""[..0]) && Mentions(""[0..]);
  }

  // ---------------------------------------------------------------------------
  // Consequences of the notification grammar
  // ---------------------------------------------------------------------------

  /** Plain words followed by mentions form a notification. */
  lemma WordsThenMentions(w: string, m: string)
    requires WordsOk(w) && Mentions(m)
    ensures NotificationShape(w + m)
  {
    WordsIff(w);
    var s := w + m;
    assert s[..|w|] == w && s[|w|..] == m;
  }

  /** One more mention in front of a sequence of mentions. */
  lemma MentionsCons(t: string, rest: string)
    requires MentionPiece(t) && Mentions(rest)
    ensures Mentions(t + rest)
  {
    var s := t + rest;
    assert s[..|t|] == t && s[|t|..] == rest;
  }

  /** An email ends with a letter of its top-level domain. */
  lemma EmailEndsWithLetter(e: string)
    requires IsEmailShaped(e)
    ensures |e| > 0 && IsLetter(e[|e| - 1])
  {
    var a, d :| EmailSplitAt(e, a, d);
    assert e[d + 1..][|e| - d - 2] == e[|e| - 1];
  }

  /**
   * One mention that ends in whitespace, followed by a character that is not
   * whitespace, is read by exactly one step of MentionsOk.
   */
  lemma ParseSpacedMention(m: string, i: nat)
    requires 0 < i < |m| && MentionPiece(m[..i])
    requires InClass(m[i - 1], Space) && !InClass(m[i], Space)
    ensures MentionsOk(m) == MentionsOk(m[i..])
  {
    var j := MentionSplit(m, i);
    EmailEndsWithLetter(m[1..j]);
    assert m[1..j][j - 2] == m[j - 1];
    assert j < i;
    assert m[j..i][0] == m[j];
    var a := ParseMentionEmail(m, j);
    RunEndIs(m, j, Space, i);
    MentionsOkStep(m, a, j, i);
  }

  /**
   * Once the plain-words part ends at a character that cannot belong to it, the
   * rest must be a sequence of mentions.
   */
  lemma SplitAfterWords(w: string, m: string)
    requires AllIn(w, WordOrSpace) && (m == [] || !InClass(m[0], WordOrSpace))
    ensures NotificationShape(w + m) <==> WordsOk(w) && MentionsOk(m)
  {
    var s := w + m;
    assert s[0..|w|] == w;
    if m != [] { assert s[|w|] == m[0]; }
    RunEndIs(s, 0, WordOrSpace, |w|);
    NotificationSplit(s, |w|);
    assert s[..|w|] == w && s[|w|..] == m;
  }

  /** An '@' that is not followed by a local-part character cannot start a mention. */
  lemma BareAtRejected(w: string, x: string)
    requires AllIn(w, WordOrSpace) && (x == [] || !InClass(x[0], Local))
    ensures !NotificationShape(w + "@" + x)
  {
    var m := "@" + x;
    if x != [] { assert m[1] == x[0]; }
    RunEndIs(m, 1, Local, 1);
    SplitAfterWords(w, m);
    assert w + "@" + x == w + m;
  }

  /** An '@' followed by text with no second '@' cannot start a mention. */
  lemma AtWithoutEmailRejected(w: string, x: string)
    requires AllIn(w, WordOrSpace) && forall i | 0 <= i < |x| :: x[i] != '@'
    ensures !NotificationShape(w + "@" + x)
  {
    var m := "@" + x;
    var a := RunEnd(m, 1, Local);
    if a < |m| { assert m[a] == x[a - 1]; }
    SplitAfterWords(w, m);
    assert w + "@" + x == w + m;
  }

  /**
   * After a mention that ends in whitespace, text that neither starts a new
   * mention nor continues the whitespace is rejected: a word cannot follow a
   * mention, and (with `w` empty) a mention cannot precede the words.
   */
  lemma TextAfterMentionRejected(w: string, t: string, x: string)
    requires AllIn(w, WordOrSpace) && |t| > 0 && MentionPiece(t) && InClass(t[|t| - 1], Space)
    requires x != [] && x[0] != '@' && !InClass(x[0], Space)
    ensures !NotificationShape(w + t + x)
  {
    var m := t + x;
    assert m[..|t|] == t && m[|t|] == x[0] && m[|t| - 1] == t[|t| - 1];
    ParseSpacedMention(m, |t|);
    assert m[|t|..] == x;
    assert m[0] == t[0] == '@';
    SplitAfterWords(w, m);
    assert w + t + x == w + m;
  }
}
