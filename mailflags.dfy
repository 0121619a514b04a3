/** `javax.mail.Flags` as the index sees it, and the listener's encoding of a
    flag set into the text stored in a message's FLAGS cell. */
module MailFlags {
  import opened Text

  /** The system flags of RFC 3501 section 2.3.2 (`Flags.Flag`, without the
      `USER` pseudo-flag). */
  datatype SystemFlag = Answered | Deleted | Draft | Flagged | Recent | Seen

  /** The order in which `Flags.getSystemFlags` reports system flags. */
  const SystemOrder: seq<SystemFlag> := [Answered, Deleted, Draft, Flagged, Recent, Seen]

  lemma SystemOrderComplete()
    ensures forall f: SystemFlag :: f in SystemOrder
  {
    forall f: SystemFlag ensures f in SystemOrder {
      match f
      case Answered => case Deleted => case Draft => case Flagged => case Recent => case Seen =>
    }
  }

  /** A flag set: its system flags and its user flags, the latter in the
      order `Flags.getUserFlags` reports them. */
  datatype Flags = Flags(system: set<SystemFlag>, user: seq<string>)

  /** `getSystemFlags`: the members of `flags` in `order`. */
  function SystemFlagsIn(order: seq<SystemFlag>, flags: set<SystemFlag>): (r: seq<SystemFlag>)
    ensures forall f :: f in r <==> f in flags && f in order
    ensures |r| <= |order|
  {
    if order == [] then []
    else if order[0] in flags then [order[0]] + SystemFlagsIn(order[1..], flags)
    else SystemFlagsIn(order[1..], flags)
  }

  function SystemFlags(flags: Flags): (r: seq<SystemFlag>)
    ensures forall f :: f in r <==> f in flags.system
  {
    SystemOrderComplete();
    SystemFlagsIn(SystemOrder, flags.system)
  }

  /** `toString(Flag)` of the listener: SEEN is written `\FLAG`. */
  function FlagToken(f: SystemFlag): (r: string)
    ensures |r| >= 5 && r[0] == '\\'
  {
    match f
    case Answered => "\\ANSWERED"
    case Deleted => "\\DELETED"
    case Draft => "\\DRAFT"
    case Flagged => "\\FLAGGED"
    case Recent => "\\RECENT"
    case Seen => "\\FLAG"
  }

  /** The token RFC 3501 gives each system flag, upper-cased. */
  function FlagTokenCorrected(f: SystemFlag): string
  {
    match f
    case Answered => "\\ANSWERED"
    case Deleted => "\\DELETED"
    case Draft => "\\DRAFT"
    case Flagged => "\\FLAGGED"
    case Recent => "\\RECENT"
    case Seen => "\\SEEN"
  }

  /** The listener's tokens are the RFC 3501 ones except SEEN's, which is
      a proper prefix of FLAGGED's. */
  lemma FlagTokenAgrees(f: SystemFlag)
    ensures f != Seen ==> FlagToken(f) == FlagTokenCorrected(f)
    ensures FlagToken(Seen) != FlagTokenCorrected(Seen) && FlagToken(Seen) < FlagToken(Flagged)
  {
  }

  function Concat(parts: seq<string>): string
  {
    if parts == [] then "" else parts[0] + Concat(parts[1..])
  }

  function Tokens(token: SystemFlag -> string, flags: seq<SystemFlag>): (r: seq<string>)
    ensures |r| == |flags|
    ensures forall i :: 0 <= i < |flags| ==> r[i] == token(flags[i])
  {
    if flags == [] then [] else [token(flags[0])] + Tokens(token, flags[1..])
  }

  /** What `parseFlagsContent(Flags)` returns: the empty-column text when
      there is no flag at all, otherwise the tokens of the system flags in
      `getSystemFlags` order followed by the user flags verbatim. */
  function FlagsContentWith(token: SystemFlag -> string, emptyText: string, flags: Flags): string
  {
    if flags.system == {} && flags.user == [] then emptyText
    else Concat(Tokens(token, SystemFlags(flags))) + Concat(flags.user)
  }

  function FlagsContent(emptyText: string, flags: Flags): string
  {
    FlagsContentWith(FlagToken, emptyText, flags)
  }

  /** `parseFlagsContent(Flags)`: builds the FLAGS cell text in a string
      builder, system flags first, then user flags. */
  method ParseFlagsContent(emptyText: string, flags: Flags) returns (sb: string)
    ensures sb == FlagsContent(emptyText, flags)
  {
    var systemFlags := SystemFlags(flags);
    var userFlags := flags.user;
    sb := "";
    if |systemFlags| == 0 && |userFlags| == 0 {
      assert forall f :: f !in flags.system;
      assert flags.system == {};
      sb := sb + emptyText;
      assert sb == emptyText;
    } else {
      ghost var tokens := Tokens(FlagToken, systemFlags);
      var i := 0;
      while i < |systemFlags|
        invariant 0 <= i <= |systemFlags|
        invariant sb == Concat(tokens[..i])
      {
        assert sb + FlagToken(systemFlags[i]) == Concat(tokens[..i + 1]) by {
          ConcatSnoc(tokens[..i], tokens[i]);
          assert tokens[..i + 1] == tokens[..i] + [tokens[i]];
        }
        sb := sb + FlagToken(systemFlags[i]);
        i := i + 1;
      }
      assert tokens[..i] == tokens;
      var j := 0;
      while j < |userFlags|
        invariant 0 <= j <= |userFlags|
        invariant sb == Concat(tokens) + Concat(userFlags[..j])
      {
        assert sb + userFlags[j] == Concat(tokens) + Concat(userFlags[..j + 1]) by {
          ConcatSnoc(userFlags[..j], userFlags[j]);
          assert userFlags[..j + 1] == userFlags[..j] + [userFlags[j]];
          assert sb + userFlags[j] == Concat(tokens) + (Concat(userFlags[..j]) + userFlags[j]);
        }
        sb := sb + userFlags[j];
        j := j + 1;
      }
      assert sb == FlagsContentWith(FlagToken, emptyText, flags) by {
        assert userFlags[..j] == userFlags;
        assert flags.system != {} || flags.user != [] by {
          if systemFlags != [] { assert systemFlags[0] in flags.system; }
        }
      }
    }
  }

  lemma {:induction false} ConcatSnoc(parts: seq<string>, x: string)
    ensures Concat(parts + [x]) == Concat(parts) + x
  {
    if parts == [] {
      assert parts + [x] == [x];
    } else {
      assert (parts + [x])[1..] == parts[1..] + [x];
      ConcatSnoc(parts[1..], x);
    }
  }

  lemma FlagsContentNoFlags(emptyText: string, flags: Flags)
    requires flags.system == {} && flags.user == []
    ensures FlagsContent(emptyText, flags) == emptyText
  {
  }

  /** With flags, the text starts with the system-flag tokens: every present
      system flag's token occurs in it. */
  lemma FlagsContentHasTokens(emptyText: string, flags: Flags, f: SystemFlag)
    requires f in flags.system
    ensures Contains(FlagsContent(emptyText, flags), FlagToken(f))
  {
    var sys := SystemFlags(flags);
    var tokens := Tokens(FlagToken, sys);
    var k :| 0 <= k < |sys| && sys[k] == f;
    ConcatHasPart(tokens, k);
    var i := ContainsWitness(Concat(tokens), FlagToken(f));
    var whole := Concat(tokens) + Concat(flags.user);
    assert whole[i..i + |FlagToken(f)|] == Concat(tokens)[i..i + |FlagToken(f)|];
    ContainsAt(whole, FlagToken(f), i);
  }

  lemma {:induction false} ConcatHasPart(parts: seq<string>, k: nat)
    requires k < |parts|
    ensures Contains(Concat(parts), parts[k])
  {
    if k == 0 {
      assert Concat(parts)[..|parts[0]|] == parts[0];
      ContainsAt(Concat(parts), parts[0], 0);
    } else {
      ConcatHasPart(parts[1..], k - 1);
      var i := ContainsWitness(Concat(parts[1..]), parts[k]);
      var j := |parts[0]| + i;
      assert Concat(parts)[j..j + |parts[k]|] == Concat(parts[1..])[i..i + |parts[k]|];
      ContainsAt(Concat(parts), parts[k], j);
    }
  }

  /** The SEEN token is the start of the FLAGGED token, so the substring
      test the store applies to FLAGS cells (both sides lower-cased) finds
      "SEEN" in a message that is only FLAGGED. */
  lemma SeenTokenInFlaggedOnly(emptyText: string)
    ensures var content := FlagsContent(emptyText, Flags({Flagged}, []));
      Contains(Lower(content), Lower(FlagToken(Seen))) && Seen !in {Flagged}
  {
    var content := FlagsContent(emptyText, Flags({Flagged}, []));
    FlagsContentHasTokens(emptyText, Flags({Flagged}, []), Flagged);
    assert FlagToken(Seen) <= FlagToken(Flagged);
    ContainsPrefix(content, FlagToken(Flagged), FlagToken(Seen));
    ContainsLower(content, FlagToken(Seen));
  }

  // A token alphabet in which a token can only be found where it was written.

  /** `t` starts with a backslash and has no other backslash. */
  predicate IsToken(t: string)
  {
    |t| > 0 && t[0] == '\\' && forall k :: 1 <= k < |t| ==> t[k] != '\\'
  }

  /** Of two distinct members of the alphabet, neither is a prefix of the other. */
  predicate PrefixFree(alphabet: set<string>)
  {
    forall a, b :: a in alphabet && b in alphabet && a != b ==> !(a <= b)
  }

  lemma {:induction false} ConcatOfTokens(parts: seq<string>, alphabet: set<string>, t: string)
    requires PrefixFree(alphabet) && t in alphabet
    requires forall a :: a in alphabet ==> IsToken(a)
    requires forall k :: 0 <= k < |parts| ==> parts[k] in alphabet
    ensures Contains(Concat(parts), t) <==> t in parts
  {
    if t in parts {
      var k :| 0 <= k < |parts| && parts[k] == t;
      ConcatHasPart(parts, k);
    }
    if Contains(Concat(parts), t) {
      var i := ContainsWitness(Concat(parts), t);
      FoundAtTokenStart(parts, alphabet, t, i);
    }
  }

  lemma {:induction false} FoundAtTokenStart(parts: seq<string>, alphabet: set<string>, t: string, i: nat)
    requires PrefixFree(alphabet) && t in alphabet
    requires forall a :: a in alphabet ==> IsToken(a)
    requires forall k :: 0 <= k < |parts| ==> parts[k] in alphabet
    requires i + |t| <= |Concat(parts)| && Concat(parts)[i..i + |t|] == t
    ensures t in parts
  {
    var whole := Concat(parts);
    assert parts != [];
    var head := parts[0];
    assert IsToken(head) && IsToken(t);
    assert whole == head + Concat(parts[1..]);
    if i < |head| {
      assert whole[i] == t[0] == '\\';
      assert i == 0;
      if |t| <= |head| {
        assert t <= head by { assert head[..|t|] == whole[..|t|]; }
      }
      assert t == head;
    } else {
      var j := i - |head|;
      assert Concat(parts[1..])[j..j + |t|] == t;
      FoundAtTokenStart(parts[1..], alphabet, t, j);
    }
  }

  /** The corrected tokens as the store's substring test sees them. */
  function LoweredToken(f: SystemFlag): string
  {
    match f
    case Answered => "\\answered"
    case Deleted => "\\deleted"
    case Draft => "\\draft"
    case Flagged => "\\flagged"
    case Recent => "\\recent"
    case Seen => "\\seen"
  }

  lemma LowerCorrectedToken(f: SystemFlag)
    ensures Lower(FlagTokenCorrected(f)) == LoweredToken(f)
  {
  }

  lemma LoweredTokensAlphabet()
    ensures forall f :: IsToken(LoweredToken(f))
    ensures PrefixFree(set f: SystemFlag :: LoweredToken(f))
    ensures forall f, g :: LoweredToken(f) == LoweredToken(g) ==> f == g
  {
    forall f: SystemFlag, g: SystemFlag | f != g
      ensures !(LoweredToken(f) <= LoweredToken(g))
    {
      var a := LoweredToken(f);
      var b := LoweredToken(g);
      assert |a| >= 3 && |b| >= 3;
      assert a[1] != b[1] || a[2] != b[2];
    }
  }

  function LowerAll(parts: seq<string>): (r: seq<string>)
    ensures |r| == |parts|
    ensures forall i :: 0 <= i < |parts| ==> r[i] == Lower(parts[i])
  {
    if parts == [] then [] else [Lower(parts[0])] + LowerAll(parts[1..])
  }

  lemma {:induction false} LowerConcat(parts: seq<string>)
    ensures Lower(Concat(parts)) == Concat(LowerAll(parts))
  {
    if parts != [] {
      LowerConcat(parts[1..]);
      LowerAppend(parts[0], Concat(parts[1..]));
    }
  }

  lemma LowerAppend(a: string, b: string)
    ensures Lower(a + b) == Lower(a) + Lower(b)
  {
  }

  /** Lower-cased, the corrected flag text of system flags alone is the
      concatenation of the lower-cased tokens. */
  lemma LoweredCorrectedContent(emptyText: string, flags: Flags)
    requires flags.user == [] && flags.system != {}
    ensures Lower(FlagsContentWith(FlagTokenCorrected, emptyText, flags)) ==
      Concat(LowerAll(Tokens(FlagTokenCorrected, SystemFlags(flags))))
  {
    var parts := Tokens(FlagTokenCorrected, SystemFlags(flags));
    assert FlagsContentWith(FlagTokenCorrected, emptyText, flags) == Concat(parts) + "";
    assert Concat(parts) + "" == Concat(parts);
    LowerConcat(parts);
  }

  /** The lower-cased corrected tokens of a flag list are the flags' lowered
      tokens, one per flag. */
  lemma LoweredCorrectedParts(sys: seq<SystemFlag>)
    ensures |LowerAll(Tokens(FlagTokenCorrected, sys))| == |sys|
    ensures forall k :: 0 <= k < |sys| ==> LowerAll(Tokens(FlagTokenCorrected, sys))[k] == LoweredToken(sys[k])
  {
    forall k | 0 <= k < |sys|
      ensures LowerAll(Tokens(FlagTokenCorrected, sys))[k] == LoweredToken(sys[k])
    {
      LowerCorrectedToken(sys[k]);
    }
  }

  /** Flags written with distinct tokens from a prefix-free alphabet: a
      flag's token occurs in the text exactly when the flag is listed. */
  lemma TokensFoundExactly(tok: SystemFlag -> string, alphabet: set<string>, sys: seq<SystemFlag>,
                            parts: seq<string>, g: SystemFlag)
    requires |parts| == |sys| && forall k :: 0 <= k < |sys| ==> parts[k] == tok(sys[k])
    requires forall f :: tok(f) in alphabet
    requires forall a :: a in alphabet ==> IsToken(a)
    requires PrefixFree(alphabet)
    requires forall f, h :: tok(f) == tok(h) ==> f == h
    ensures Contains(Concat(parts), tok(g)) <==> g in sys
  {
    assert forall k :: 0 <= k < |parts| ==> parts[k] in alphabet;
    ConcatOfTokens(parts, alphabet, tok(g));
    if g in sys {
      var k :| 0 <= k < |sys| && sys[k] == g;
      assert parts[k] == tok(g);
    }
  }

  /** With the corrected tokens, a FLAGS cell of a message without user
      flags contains the lower-cased token of `g` exactly when `g` is set. */
  lemma CorrectedTokensFoundExactly(emptyText: string, flags: Flags, g: SystemFlag)
    requires flags.user == [] && flags.system != {}
    ensures Contains(Lower(FlagsContentWith(FlagTokenCorrected, emptyText, flags)), Lower(FlagTokenCorrected(g)))
        <==> g in flags.system
  {
    var sys := SystemFlags(flags);
    LoweredCorrectedContent(emptyText, flags);
    LoweredCorrectedParts(sys);
    LoweredTokensAlphabet();
    LowerCorrectedToken(g);
    var alphabet := set f: SystemFlag :: LoweredToken(f);
    assert forall f :: LoweredToken(f) in alphabet;
    TokensFoundExactly(LoweredToken, alphabet, sys, LowerAll(Tokens(FlagTokenCorrected, sys)), g);
  }
}
