/** The IMAP `CAPABILITY` response (RFC 9051 section 7.2.2): a flag set
    whose names are the capability atoms. */
module ImapCapability {
  import opened Text
  import opened FlagSet
  import Sasl

  /** The declared capabilities, in declaration order. */
  const Decl: seq<string> := [
    "IMAP4", "IMAP4rev1", "IMAP4rev2", "STARTTLS", "AUTH=PLAIN", "LOGINDISABLED", "SASL-IR"]

  const IMAP4: nat := 0
  const IMAP4rev1: nat := 1
  const IMAP4rev2: nat := 2
  const STARTTLS: nat := 3
  const AUTH_PLAIN: nat := 4
  const LOGINDISABLED: nat := 5
  const SASL_IR: nat := 6

  /** Every capability the type can hold. */
  const All: set<nat> := {0, 1, 2, 3, 4, 5, 6}

  lemma DeclDistinct()
    ensures Distinct(Decl)
    ensures forall i :: 0 <= i < |Decl| ==> ' ' !in Decl[i] && Decl[i] != "CAPABILITY"
  {
  }

  /** `Capabilities::auth`: the capability advertising a SASL mechanism. */
  function AuthCapability(m: Sasl.MechanismKind): (c: nat)
    ensures c < |Decl| && Decl[c] == "AUTH=PLAIN"
  {
    match m
    case Plain => AUTH_PLAIN
  }

  /** `CAPABILITY`, then a space and the name of each capability held, in
      declaration order. */
  function CapabilityText(f: set<nat>): string
  {
    Join(["CAPABILITY"] + Names(Decl, f), " ")
  }

  /** `Display for Capabilities`. */
  method FmtCapabilities(f: set<nat>) returns (out: string)
    ensures out == CapabilityText(f)
  {
    var names := Names(Decl, f);
    out := "CAPABILITY";
    var i := 0;
    while i < |names|
      invariant 0 <= i <= |names|
      invariant out == Join(["CAPABILITY"] + names[..i], " ")
    {
      JoinSnoc(["CAPABILITY"] + names[..i], names[i], " ");
      assert ["CAPABILITY"] + names[..i + 1] == (["CAPABILITY"] + names[..i]) + [names[i]];
      out := out + " " + names[i];
      i := i + 1;
    }
    assert names[..i] == names;
  }

  /** Splitting the printed line at spaces and collecting the words gives
      back the set; the leading `CAPABILITY` word names no flag. */
  lemma CapabilityTextRoundTrip(f: set<nat>)
    requires Valid(Decl, f)
    ensures FromNames(Decl, Split(CapabilityText(f), ' ')) == f
  {
    DeclDistinct();
    var names := Names(Decl, f);
    var words := ["CAPABILITY"] + names;
    forall k | 0 <= k < |words|
      ensures ' ' !in words[k]
    {
      if k > 0 {
        assert words[k] in names;
        NamesDeclared(Decl, f, words[k]);
      }
    }
    SplitJoin(words, ' ');
    forall i: nat | i < |Decl|
      ensures Decl[i] in words <==> i in f
    {
      NamesMembership(Decl, f, i);
    }
  }

  /** The capability held first in declaration order comes first;
      in particular `IMAP4`, when held, is the first name printed. */
  lemma Imap4First(f: set<nat>)
    requires IMAP4 in f
    ensures |Names(Decl, f)| > 0 && Names(Decl, f)[0] == "IMAP4"
  {
    NamesOrder(Decl, f);
    var idx := Indices(f, |Decl|);
    assert 0 in idx;
    var k :| 0 <= k < |idx| && idx[k] == 0;
    assert idx[0] <= idx[k];
  }

  /** The full set prints every capability in declaration order. */
  lemma AllText()
    ensures CapabilityText(All) == Join(["CAPABILITY"] + Decl, " ")
  {
    NamesAll();
  }

  lemma NamesAll()
    ensures Names(Decl, All) == Decl
  {
    assert NamesBelow(Decl, All, 0) == [];
    assert NamesBelow(Decl, All, 1) == Decl[..1];
    assert NamesBelow(Decl, All, 2) == Decl[..2];
    assert NamesBelow(Decl, All, 3) == Decl[..3];
    assert NamesBelow(Decl, All, 4) == Decl[..4];
    assert NamesBelow(Decl, All, 5) == Decl[..5];
    assert NamesBelow(Decl, All, 6) == Decl[..6];
    assert NamesBelow(Decl, All, 7) == Decl[..7];
  }

  /** Two capabilities print in declaration order, whatever order they were
      named in. */
  lemma TwoText()
    ensures CapabilityText(FromNames(Decl, ["AUTH=PLAIN", "IMAP4rev1"])) == "CAPABILITY IMAP4rev1 AUTH=PLAIN"
  {
    TwoSet();
    TwoNames();
    JoinCons("IMAP4rev1", ["AUTH=PLAIN"], " ");
    JoinCons("CAPABILITY", ["IMAP4rev1", "AUTH=PLAIN"], " ");
  }

  lemma TwoSet()
    ensures FromNames(Decl, ["AUTH=PLAIN", "IMAP4rev1"]) == {IMAP4rev1, AUTH_PLAIN}
  {
    var f := FromNames(Decl, ["AUTH=PLAIN", "IMAP4rev1"]);
    forall i: nat
      ensures i in f <==> i == IMAP4rev1 || i == AUTH_PLAIN
    {
    }
  }

  lemma TwoNames()
    ensures Names(Decl, {IMAP4rev1, AUTH_PLAIN}) == ["IMAP4rev1", "AUTH=PLAIN"]
  {
    var f := {IMAP4rev1, AUTH_PLAIN};
    assert NamesBelow(Decl, f, 1) == [];
    assert NamesBelow(Decl, f, 2) == ["IMAP4rev1"];
    assert NamesBelow(Decl, f, 4) == ["IMAP4rev1"];
    assert NamesBelow(Decl, f, 5) == ["IMAP4rev1", "AUTH=PLAIN"];
    assert NamesBelow(Decl, f, 7) == ["IMAP4rev1", "AUTH=PLAIN"];
  }
}
