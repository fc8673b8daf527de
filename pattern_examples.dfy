/**
 * The sample strings of the pattern tests, decided against the specification
 * predicates of Patterns.
 */
module PatternExamples {
  import opened Patterns

  /** A string with no '@' cannot contain an email. */
  lemma NoEmailWithoutAt(s: string)
    requires forall p | 0 <= p < |s| :: s[p] != '@'
    ensures !HasEmail(s)
  {
    HasEmailIffAnchor(s);
  }

  /** A string with no '.' cannot contain an email. */
  lemma NoEmailWithoutDot(s: string)
    requires forall q | 0 <= q < |s| :: s[q] != '.'
    ensures !HasEmail(s)
  {
    HasEmailIffAnchor(s);
    forall k | 0 <= k ensures !TldAfter(s, k) { }
  }

  /** A string none of whose '@' follows a local-part character cannot contain an email. */
  lemma NoEmailWithoutLocalBeforeAt(s: string)
    requires forall p | 0 < p < |s| && s[p] == '@' :: !InClass(s[p - 1], Local)
    ensures !HasEmail(s)
  {
    HasEmailIffAnchor(s);
  }

  /** A whole string with the email shape is accepted by the unanchored check. */
  lemma AcceptWhole(s: string, a: int, d: int)
    requires EmailSplitAt(s, a, d)
    ensures ContainsEmail(s)
  {
    assert s[0..|s|] == s;
  }

  /** `test@test.com` is accepted. */
  lemma AcceptedTestCom()
    ensures ContainsEmail("test@test.com")
  {
    AcceptWhole("test@test.com", 4, 9);
  }

  /** `test12@gmail.com` is accepted. */
  lemma AcceptedTest12Com()
    ensures ContainsEmail("test12@gmail.com")
  {
    AcceptWhole("test12@gmail.com", 6, 12);
  }

  /** `11test@test.com` is accepted. */
  lemma AcceptedElevenTestCom()
    ensures ContainsEmail("11test@test.com")
  {
    AcceptWhole("11test@test.com", 6, 11);
  }

  /** `T3st@test.com` is accepted. */
  lemma AcceptedT3stCom()
    ensures ContainsEmail("T3st@test.com")
  {
    AcceptWhole("T3st@test.com", 4, 9);
  }

  /** `test@test.org` is accepted. */
  lemma AcceptedTestOrg()
    ensures ContainsEmail("test@test.org")
  {
    AcceptWhole("test@test.org", 4, 9);
  }

  /** `test12@gmail.org` is accepted. */
  lemma AcceptedTest12Org()
    ensures ContainsEmail("test12@gmail.org")
  {
    AcceptWhole("test12@gmail.org", 6, 12);
  }

  /** `11test@test.org` is accepted. */
  lemma AcceptedElevenTestOrg()
    ensures ContainsEmail("11test@test.org")
  {
    AcceptWhole("11test@test.org", 6, 11);
  }

  /** `T3st@test.org` is accepted. */
  lemma AcceptedT3stOrg()
    ensures ContainsEmail("T3st@test.org")
  {
    AcceptWhole("T3st@test.org", 4, 9);
  }

  /** The four strings the tests reject. */
  lemma RejectedEmails()
    ensures !ContainsEmail("!*($#*)@!(*@!.!@&@!")
    ensures !ContainsEmail("@#*&#@@#")
    ensures !ContainsEmail("test@gmailcom")
    ensures !ContainsEmail("testgmail.com")
  {
    NoEmailWithoutLocalBeforeAt("!*($#*)@!(*@!.!@&@!");
    NoEmailWithoutLocalBeforeAt("@#*&#@@#");
    NoEmailWithoutDot("test@gmailcom");
    NoEmailWithoutAt("testgmail.com");
  }

  /** The top-level domain needs two letters: a one-letter one does not match. */
  lemma OneLetterTldRejected()
    ensures !ContainsEmail("a@b.c")
  {
    var s := "a@b.c";
    HasEmailIffAnchor(s);
    forall k | 0 <= k ensures !TldAfter(s, k) { }
  }

  /** Plain words alone form a notification. */
  lemma AcceptWordsOnly(s: string)
    requires WordsOk(s)
    ensures NotificationShape(s)
  {
    WordsThenMentions(s, "");
    assert s + "" == s;
  }

  /** A local part, a domain and a top-level domain joined by '@' and '.' form an email. */
  lemma EmailOfParts(l: string, dm: string, tld: string)
    requires l != [] && dm != [] && |tld| >= 2
    requires AllIn(l, Local) && AllIn(dm, Domain) && AllIn(tld, Letter)
    ensures IsEmailShaped(l + "@" + dm + "." + tld)
  {
    var t := l + "@" + dm + "." + tld;
    var a, d := |l|, |l| + 1 + |dm|;
    assert t[..a] == l && t[a + 1..d] == dm && t[d + 1..] == tld;
    assert EmailSplitAt(t, a, d);
  }

  /** '@', an email built from its parts, then the whitespace `sp`, is one mention. */
  lemma MentionOfParts(l: string, dm: string, tld: string, sp: string)
    requires l != [] && dm != [] && |tld| >= 2
    requires AllIn(l, Local) && AllIn(dm, Domain) && AllIn(tld, Letter) && AllIn(sp, Space)
    ensures MentionPiece(("@" + l + "@" + dm + "." + tld) + sp)
    ensures sp == [] ==> MentionPiece("@" + l + "@" + dm + "." + tld)
  {
    var e := l + "@" + dm + "." + tld;
    EmailOfParts(l, dm, tld);
    var t := ("@" + l + "@" + dm + "." + tld) + sp;
    assert t == "@" + e + sp;
    assert t[1..1 + |e|] == e && t[1 + |e|..] == sp;
    if sp == [] { assert t == "@" + l + "@" + dm + "." + tld; }
  }

  /** A single mention is a sequence of mentions. */
  lemma SingleMention(t: string)
    requires MentionPiece(t)
    ensures Mentions(t)
  {
    MentionsCons(t, []);
    assert t + [] == t;
  }

  /** One word followed by one space is a plain-words part. */
  lemma WordThenSpace(u: string)
    requires u != [] && AllIn(u, Word)
    ensures WordsOk(u + " ")
  {
    var w := u + " ";
    assert w[|u|] == ' ' && w[|u| - 1] == u[|u| - 1];
    forall i | 0 <= i < |u| ensures w[i] == u[i] { }
  }

  /** Two plain-words parts in a row, the second starting with a word character, form one. */
  lemma WordsJoin(u: string, v: string)
    requires WordsOk(u) && WordsOk(v) && (v != [] ==> InClass(v[0], Word))
    ensures WordsOk(u + v)
  {
    var w := u + v;
    forall i | 0 <= i < |w|
      ensures InClass(w[i], Word) || (0 < i && InClass(w[i], Space) && InClass(w[i - 1], Word))
    {
      if i < |u| {
        assert w[i] == u[i];
        if 0 < i { assert w[i - 1] == u[i - 1]; }
      } else {
        assert w[i] == v[i - |u|];
        if |u| < i { assert w[i - 1] == v[i - |u| - 1]; }
      }
    }
  }

  /** `hello ` followed by `rest`, a plain-words part starting with a word character. */
  lemma HelloThen(rest: string)
    requires WordsOk(rest) && rest != [] && InClass(rest[0], Word)
    ensures WordsOk("hello " + rest)
  {
    WordThenSpace("hello");
    WordsJoin("hello" + " ", rest);
    assert "hello" + " " == "hello ";
  }

  /** `hello world! ` is a plain-words part. */
  lemma HelloWorldSpace()
    ensures WordsOk("hello world! ")
  {
    WordThenSpace("world!");
    HelloThen("world!" + " ");
    assert "hello " + ("world!" + " ") == "hello world! ";
  }

  /** `hello world!` (words only) is accepted. */
  lemma AcceptedWords()
    ensures NotificationShape("hello world!")
  {
    HelloThen("world!");
    assert "hello " + "world!" == "hello world!";
    AcceptWordsOnly("hello world!");
  }

  /** `hello world! ` (words with one trailing space) is accepted. */
  lemma AcceptedWordsTrailingSpace()
    ensures NotificationShape("hello world! ")
  {
    HelloWorldSpace();
    AcceptWordsOnly("hello world! ");
  }

  /** `hello world` is accepted. */
  lemma AcceptedWordsNoPunctuation()
    ensures NotificationShape("hello world")
  {
    HelloThen("world");
    assert "hello " + "world" == "hello world";
    AcceptWordsOnly("hello world");
  }

  /** The sample with one mention, spelled out from its parts. */
  lemma SpellOneMention()
    ensures "hello world! " + ("@" + "tagged" + "@" + "gmail" + "." + "com") == "hello world! @tagged@gmail.com"
  {
  }

  /** A gmail.com mention of `name`, spelled out from its parts. */
  lemma SpellMention(name: string)
    ensures "@" + name + "@" + "gmail" + "." + "com" == "@" + name + "@gmail.com"
  {
    assert "@" + "gmail" + "." + "com" == "@gmail.com";
  }

  /** The sample with two mentions, spelled out from its parts. */
  lemma SpellTwoMentions()
    ensures "hello world! " + ((("@" + "tagged" + "@" + "gmail" + "." + "com") + " ") + ("@" + "tagged2" + "@" + "gmail" + "." + "com")) == "hello world! @tagged@gmail.com @tagged2@gmail.com"
  {
    SpellMention("tagged");
    SpellMention("tagged2");
  }

  /** The sample with a mention first, spelled out from its parts. */
  lemma SpellMentionFirst()
    ensures "" + (("@" + "tagged" + "@" + "gmail" + "." + "com") + " ") + "hello world @tagged@gmail.com" == "@tagged@gmail.com hello world @tagged@gmail.com"
  {
    SpellMention("tagged");
    var a := ("@" + "tagged" + "@" + "gmail" + "." + "com") + " ";
    assert a == "@tagged@gmail.com ";
    assert "" + a == a;
    assert "@tagged@gmail.com " + "hello world @tagged@gmail.com" == "@tagged@gmail.com hello world @tagged@gmail.com";
  }

  /** The sample with a word after a mention, spelled out from its parts. */
  lemma SpellWordAfterMention()
    ensures "hello world " + (("@" + "tagged" + "@" + "gmail" + "." + "com") + " ") + "extra" == "hello world @tagged@gmail.com extra"
  {
  }

  /** Words followed by one mention, as parts. */
  lemma OneMentionParts()
    ensures NotificationShape("hello world! " + ("@" + "tagged" + "@" + "gmail" + "." + "com"))
  {
    MentionOfParts("tagged", "gmail", "com", "");
    SingleMention(("@" + "tagged" + "@" + "gmail" + "." + "com"));
    HelloWorldSpace();
    WordsThenMentions("hello world! ", ("@" + "tagged" + "@" + "gmail" + "." + "com"));
  }

  /** Words followed by one mention are accepted. */
  lemma AcceptedOneMention()
    ensures NotificationShape("hello world! @tagged@gmail.com")
  {
    OneMentionParts();
    SpellOneMention();
  }

  /** Words followed by two mentions, as parts. */
  lemma TwoMentionsParts()
    ensures NotificationShape("hello world! " + ((("@" + "tagged" + "@" + "gmail" + "." + "com") + " ") + ("@" + "tagged2" + "@" + "gmail" + "." + "com")))
  {
    MentionOfParts("tagged", "gmail", "com", " ");
    MentionOfParts("tagged2", "gmail", "com", "");
    SingleMention(("@" + "tagged2" + "@" + "gmail" + "." + "com"));
    MentionsCons(("@" + "tagged" + "@" + "gmail" + "." + "com") + " ", ("@" + "tagged2" + "@" + "gmail" + "." + "com"));
    HelloWorldSpace();
    WordsThenMentions("hello world! ", (("@" + "tagged" + "@" + "gmail" + "." + "com") + " ") + ("@" + "tagged2" + "@" + "gmail" + "." + "com"));
  }

  /** Words followed by two mentions separated by a space are accepted. */
  lemma AcceptedTwoMentions()
    ensures NotificationShape("hello world! @tagged@gmail.com @tagged2@gmail.com")
  {
    TwoMentionsParts();
    SpellTwoMentions();
  }

  /** A bare '@' at the end is rejected. */
  lemma RejectedBareAtEnd()
    ensures !NotificationShape("hello world @")
  {
    AtWithoutEmailRejected("hello world ", "");
    assert "hello world " + "@" + "" == "hello world @";
  }

  /** A mention before the plain words, as parts. */
  lemma MentionFirstParts()
    ensures !NotificationShape("" + (("@" + "tagged" + "@" + "gmail" + "." + "com") + " ") + "hello world @tagged@gmail.com")
  {
    MentionOfParts("tagged", "gmail", "com", " ");
    TextAfterMentionRejected("", ("@" + "tagged" + "@" + "gmail" + "." + "com") + " ", "hello world @tagged@gmail.com");
  }

  /** A mention before the plain words is rejected. */
  lemma RejectedMentionFirst()
    ensures !NotificationShape("@tagged@gmail.com hello world @tagged@gmail.com")
  {
    MentionFirstParts();
    SpellMentionFirst();
  }

  /** A plain word after a mention, as parts. */
  lemma WordAfterMentionParts()
    ensures !NotificationShape("hello world " + (("@" + "tagged" + "@" + "gmail" + "." + "com") + " ") + "extra")
  {
    MentionOfParts("tagged", "gmail", "com", " ");
    TextAfterMentionRejected("hello world ", ("@" + "tagged" + "@" + "gmail" + "." + "com") + " ", "extra");
  }

  /** A plain word after a mention is rejected. */
  lemma RejectedWordAfterMention()
    ensures !NotificationShape("hello world @tagged@gmail.com extra")
  {
    WordAfterMentionParts();
    SpellWordAfterMention();
  }

  /** '@' followed by something that is not an email is rejected. */
  lemma RejectedNonEmailMention()
    ensures !NotificationShape("hello world @wrongformat.com")
  {
    AtWithoutEmailRejected("hello world ", "wrongformat.com");
    assert "hello world " + "@" + "wrongformat.com" == "hello world @wrongformat.com";
  }

  /** A bare '@' before a mention is rejected. */
  lemma RejectedBareAtBeforeMention()
    ensures !NotificationShape("hello world @ @tagged@gmail.com")
  {
    BareAtRejected("hello world ", " @tagged@gmail.com");
    assert "hello world " + "@" + " @tagged@gmail.com" == "hello world @ @tagged@gmail.com";
  }
}
