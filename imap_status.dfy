/** The IMAP `STATUS` command's data items and response (RFC 9051
    section 6.3.11 and section 7.3.3). */
module ImapStatus {
  import opened Text
  import opened Wrappers
  import opened FlagSet
  import opened ImapProto

  type U32 = n: nat | n <= U32_MAX

  /** The status data items, in declaration order. */
  const Decl: seq<string> := ["MESSAGES", "UIDNEXT", "UIDVALIDITY", "UNSEEN", "DELETED", "SIZE"]

  lemma DeclDistinct()
    ensures Distinct(Decl)
  {
  }

  /** `status::Response`: the mailbox and the value of each item, if any. */
  datatype Response = Response(
    mailbox: string,
    messages: Option<U32>,
    uidNext: Option<Uid>,
    uidValidity: Option<Uid>,
    unseen: Option<U32>,
    deleted: Option<U32>,
    size: Option<U32>)

  /** The item values in declaration order. */
  function Values(r: Response): (vs: seq<Option<nat>>)
    ensures |vs| == |Decl|
  {
    [r.messages, r.uidNext, r.uidValidity, r.unseen, r.deleted, r.size]
  }

  /** One present item: its value, then its name. */
  function ItemText(v: nat, name: string): string
  {
    NatToString(v) + " " + name
  }

  /** The texts of the present items among the first `|vs|` fields, in
      order. */
  function Present(vs: seq<Option<nat>>): seq<string>
    requires |vs| <= |Decl|
  {
    if vs == [] then []
    else
      var i := |vs| - 1;
      Present(vs[..i]) + (if vs[i].Some? then [ItemText(vs[i].value, Decl[i])] else [])
  }

  lemma PresentSnoc(vs: seq<Option<nat>>, i: nat)
    requires i < |vs| <= |Decl|
    ensures Present(vs[..i + 1]) == Present(vs[..i]) + (if vs[i].Some? then [ItemText(vs[i].value, Decl[i])] else [])
  {
    assert vs[..i + 1][..i] == vs[..i];
  }

  /** `STATUS <mailbox> (<items>)`. */
  function StatusText(r: Response): string
  {
    "STATUS " + r.mailbox + " " + ParenList(Present(Values(r)))
  }

  /** `Display for status::Response`: each present field is written after a
      space unless it is the first one written. */
  method FmtStatus(r: Response) returns (out: string)
    ensures out == StatusText(r)
  {
    var values := Values(r);
    ghost var head := "STATUS " + r.mailbox + " (";
    out := "STATUS " + r.mailbox + " (";
    var first := true;
    var i := 0;
    while i < |values|
      invariant 0 <= i <= |values|
      invariant out == head + Join(Present(values[..i]), " ")
      invariant first <==> Present(values[..i]) == []
    {
      PresentSnoc(values, i);
      if values[i].Some? {
        var item := ItemText(values[i].value, Decl[i]);
        WriteItem(head, Present(values[..i]), item);
        if !first {
          out := out + " ";
        }
        first := false;
        out := out + item;
      } else {
        assert Present(values[..i + 1]) == Present(values[..i]);
      }
      i := i + 1;
    }
    assert values[..i] == values;
    out := out + ")";
  }

  /** Writing one more item: a space first unless it is the first item. */
  lemma WriteItem(head: string, xs: seq<string>, item: string)
    ensures head + Join(xs + [item], " ") == (if xs == [] then head else head + Join(xs, " ") + " ") + item
  {
    JoinSnoc(xs, item, " ");
  }

  /** The fields that have a value. */
  function PresentSet(vs: seq<Option<nat>>): set<nat>
  {
    set i: nat | i < |vs| && vs[i].Some?
  }

  /** Exactly the present fields are printed, once each, in declaration
      order, each as its value followed by its name. */
  lemma {:induction false} PresentOrder(vs: seq<Option<nat>>)
    requires |vs| <= |Decl|
    ensures var idx := Indices(PresentSet(vs), |vs|);
      |Present(vs)| == |idx| &&
      forall k :: 0 <= k < |idx| ==> vs[idx[k]].Some? && Present(vs)[k] == ItemText(vs[idx[k]].value, Decl[idx[k]])
  {
    if vs != [] {
      var i := |vs| - 1;
      var pre := vs[..i];
      PresentOrder(pre);
      PresentSnoc(vs, i);
      assert vs[..i + 1] == vs;
      var f := PresentSet(vs);
      assert forall j :: j < i ==> (j in f <==> j in PresentSet(pre));
      IndicesBelow(f, PresentSet(pre), i);
      var idx := Indices(f, |vs|);
      var idx0 := Indices(PresentSet(pre), i);
      assert idx == idx0 + (if i in f then [i] else []);
      assert forall k :: 0 <= k < |idx0| ==> idx0[k] < i && vs[idx0[k]] == pre[idx0[k]];
    }
  }

  /** Indices below `n` only see members below `n`. */
  lemma {:induction false} IndicesBelow(f: set<nat>, g: set<nat>, n: nat)
    requires forall i :: i < n ==> (i in f <==> i in g)
    ensures Indices(f, n) == Indices(g, n)
  {
    if n > 0 {
      IndicesBelow(f, g, n - 1);
    }
  }

  /** With no field present the list is empty. */
  lemma EmptyStatus(mailbox: string)
    ensures StatusText(Response(mailbox, None, None, None, None, None, None)) == "STATUS " + mailbox + " ()"
  {
    var vs := Values(Response(mailbox, None, None, None, None, None, None));
    assert Present(vs[..0]) == [];
    assert vs[..1][..0] == vs[..0] && Present(vs[..1]) == [];
    assert vs[..2][..1] == vs[..1] && Present(vs[..2]) == [];
    assert vs[..3][..2] == vs[..2] && Present(vs[..3]) == [];
    assert vs[..4][..3] == vs[..3] && Present(vs[..4]) == [];
    assert vs[..5][..4] == vs[..4] && Present(vs[..5]) == [];
    assert vs[..6][..5] == vs[..5] && vs[..6] == vs;
  }

  /** Only UNSEEN 3 and DELETED 1: `STATUS INBOX (3 UNSEEN 1 DELETED)`. */
  lemma UnseenDeletedExample()
    ensures StatusText(Response("INBOX", None, None, None, Some(3), Some(1), None))
      == "STATUS INBOX (3 UNSEEN 1 DELETED)"
  {
    var r := Response("INBOX", None, None, None, Some(3), Some(1), None);
    assert Values(r) == [None, None, None, Some(3), Some(1), None];
    UnseenDeletedItems();
    UnseenDeletedParens();
    StatusInboxText();
  }

  lemma StatusInboxText()
    ensures "STATUS " + "INBOX" + " " + "(3 UNSEEN 1 DELETED)" == "STATUS INBOX (3 UNSEEN 1 DELETED)"
  {
    assert "STATUS " + "INBOX" == "STATUS INBOX";
    assert "STATUS INBOX" + " " == "STATUS INBOX ";
    assert "STATUS INBOX " + "(3 UNSEEN 1 DELETED)" == "STATUS INBOX (3 UNSEEN 1 DELETED)";
  }

  lemma UnseenDeletedParens()
    ensures ParenList(["3 UNSEEN", "1 DELETED"]) == "(3 UNSEEN 1 DELETED)"
  {
    JoinCons("3 UNSEEN", ["1 DELETED"], " ");
    assert Join(["1 DELETED"], " ") == "1 DELETED";
    assert "3 UNSEEN" + " " == "3 UNSEEN ";
    assert "3 UNSEEN " + "1 DELETED" == "3 UNSEEN 1 DELETED";
    assert "(" + "3 UNSEEN 1 DELETED" == "(3 UNSEEN 1 DELETED";
    assert "(3 UNSEEN 1 DELETED" + ")" == "(3 UNSEEN 1 DELETED)";
  }

  lemma UnseenDeletedItems()
    ensures Present([None, None, None, Some(3), Some(1), None]) == ["3 UNSEEN", "1 DELETED"]
  {
    var vs: seq<Option<nat>> := [None, None, None, Some(3), Some(1), None];
    assert ItemText(3, Decl[3]) == "3 UNSEEN" by {
      assert NatToString(3) == "3";
    }
    assert ItemText(1, Decl[4]) == "1 DELETED" by {
      assert NatToString(1) == "1";
    }
    assert Present(vs[..0]) == [];
    PresentSnoc(vs, 0);
    PresentSnoc(vs, 1);
    PresentSnoc(vs, 2);
    PresentSnoc(vs, 3);
    PresentSnoc(vs, 4);
    PresentSnoc(vs, 5);
    assert vs[..6] == vs;
  }

  /** `status::Items` as the STATUS command reads them: the words between
      the parentheses, split at single spaces, unknown words ignored. */
  function ParseItems(words: string): (f: set<nat>)
    ensures Valid(Decl, f)
    ensures forall i: nat :: i in f <==> i < |Decl| && Decl[i] in Split(words, ' ')
  {
    FromNames(Decl, Split(words, ' '))
  }
}
