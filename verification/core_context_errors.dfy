/** `context_errors.go`: errors grouped by their label for display. The
    label is called `caption` here (`label` is a Dafny keyword). */
module ContextErrors {
  import opened CoreErrors

  datatype FormattedError = FormattedError(caption: string, messages: seq<string>)

  /** The label an error is grouped under; errors without a `Label()`
      method get an entry whose label is the empty string. */
  function CaptionOf(e: Error): string {
    if e.Labeled? then e.caption else ""
  }

  predicate HasCaption(entries: seq<FormattedError>, c: string) {
    exists i :: 0 <= i < |entries| && entries[i].caption == c
  }

  /** One error of the loop, as written: a labelled error whose label is
      already present is appended to a copy of the entry, so it is lost. */
  function StepAsWritten(entries: seq<FormattedError>, e: Error, show: Error -> string): seq<FormattedError> {
    if e.Labeled? && HasCaption(entries, e.caption) then entries
    else entries + [FormattedError(CaptionOf(e), [show(e)])]
  }

  /** `GetFormattedErrorsOf` as written (`show` stands for the translated
      error text). */
  function FormattedAsWritten(errs: seq<Error>, show: Error -> string): (r: seq<FormattedError>)
    ensures |r| <= |errs|
    ensures forall i :: 0 <= i < |r| ==> |r[i].messages| == 1
  {
    if |errs| == 0 then []
    else
      StepAsWritten(FormattedAsWritten(errs[..|errs| - 1], show), errs[|errs| - 1], show)
  }

  /** Error `j` gets an entry of its own: it has no label, or no earlier
      error carries its label. */
  predicate Kept(errs: seq<Error>, j: int)
    requires 0 <= j < |errs|
  {
    !errs[j].Labeled? || forall k :: 0 <= k < j ==> CaptionOf(errs[k]) != errs[j].caption
  }

  /** The reference reading: one single-message entry per kept error, in
      the order of the errors. */
  function KeptEntries(errs: seq<Error>, show: Error -> string): seq<FormattedError> {
    if |errs| == 0 then []
    else
      var j := |errs| - 1;
      KeptEntries(errs[..j], show) + (if Kept(errs, j) then [FormattedError(CaptionOf(errs[j]), [show(errs[j])])] else [])
  }

  lemma {:induction false} CaptionsSeen(errs: seq<Error>, show: Error -> string, c: string)
    ensures HasCaption(FormattedAsWritten(errs, show), c) <==> exists k :: 0 <= k < |errs| && CaptionOf(errs[k]) == c
  {
    if |errs| > 0 {
      var init := errs[..|errs| - 1];
      CaptionsSeen(init, show, c);
      var prev := FormattedAsWritten(init, show);
      var e := errs[|errs| - 1];
      var r := FormattedAsWritten(errs, show);
      assert forall k :: 0 <= k < |init| ==> errs[k] == init[k];
      assert r == prev || r == prev + [FormattedError(CaptionOf(e), [show(e)])];
      assert forall i :: 0 <= i < |prev| ==> r[i] == prev[i];
      if HasCaption(r, c) && !HasCaption(prev, c) {
        assert r == prev + [FormattedError(CaptionOf(e), [show(e)])];
        var i :| 0 <= i < |r| && r[i].caption == c;
        assert i == |prev|;
        assert CaptionOf(errs[|errs| - 1]) == c;
      }
      if (exists k :: 0 <= k < |errs| && CaptionOf(errs[k]) == c) && !HasCaption(prev, c) {
        var k :| 0 <= k < |errs| && CaptionOf(errs[k]) == c;
        if k < |init| {
          assert false;
        }
        assert CaptionOf(e) == c;
        assert r == prev + [FormattedError(CaptionOf(e), [show(e)])];
        assert r[|r| - 1].caption == c;
      }
    }
  }

  /** The loop as written keeps exactly the first error of each label and
      every unlabelled error, in order; later errors with a label already
      seen are dropped. */
  lemma {:induction false} AsWrittenKeepsFirst(errs: seq<Error>, show: Error -> string)
    ensures FormattedAsWritten(errs, show) == KeptEntries(errs, show)
  {
    if |errs| > 0 {
      var j := |errs| - 1;
      var init := errs[..j];
      AsWrittenKeepsFirst(init, show);
      var e := errs[j];
      if e.Labeled? {
        CaptionsSeen(init, show, e.caption);
        assert forall k :: 0 <= k < j ==> errs[k] == init[k];
        assert Kept(errs, j) <==> !HasCaption(FormattedAsWritten(init, show), e.caption);
      }
    }
  }

  // ---------------------------------------------------------------------
  // The evidently intended grouping

  /** Appends `m` to every entry labelled `c`. */
  function AppendTo(entries: seq<FormattedError>, c: string, m: string): (r: seq<FormattedError>)
    ensures |r| == |entries|
    ensures forall i :: 0 <= i < |r| ==> r[i].caption == entries[i].caption
    ensures forall i :: 0 <= i < |r| ==> r[i].messages == entries[i].messages + (if entries[i].caption == c then [m] else [])
  {
    seq(|entries|, i requires 0 <= i < |entries| =>
      if entries[i].caption == c then entries[i].(messages := entries[i].messages + [m]) else entries[i])
  }

  function Step(entries: seq<FormattedError>, e: Error, show: Error -> string): seq<FormattedError> {
    if e.Labeled? && HasCaption(entries, e.caption) then AppendTo(entries, e.caption, show(e))
    else entries + [FormattedError(CaptionOf(e), [show(e)])]
  }

  /** `GetFormattedErrorsOf` as evidently intended: an error whose label is
      already present is added to that label's entry. */
  function Formatted(errs: seq<Error>, show: Error -> string): (r: seq<FormattedError>)
    ensures |r| <= |errs|
  {
    if |errs| == 0 then [] else Step(Formatted(errs[..|errs| - 1], show), errs[|errs| - 1], show)
  }

  function TotalMessages(entries: seq<FormattedError>): nat {
    if |entries| == 0 then 0 else TotalMessages(entries[..|entries| - 1]) + |entries[|entries| - 1].messages|
  }

  function CountCaption(entries: seq<FormattedError>, c: string): nat {
    if |entries| == 0 then 0
    else CountCaption(entries[..|entries| - 1], c) + (if entries[|entries| - 1].caption == c then 1 else 0)
  }

  lemma {:induction false} TotalAppendTo(entries: seq<FormattedError>, c: string, m: string)
    ensures TotalMessages(AppendTo(entries, c, m)) == TotalMessages(entries) + CountCaption(entries, c)
  {
    if |entries| > 0 {
      var n := |entries| - 1;
      assert AppendTo(entries, c, m)[..n] == AppendTo(entries[..n], c, m);
      TotalAppendTo(entries[..n], c, m);
    }
  }

  lemma {:induction false} CountSnoc(entries: seq<FormattedError>, x: FormattedError, c: string)
    ensures CountCaption(entries + [x], c) == CountCaption(entries, c) + (if x.caption == c then 1 else 0)
  {
    assert (entries + [x])[..|entries|] == entries;
  }

  lemma {:induction false} CountPositive(entries: seq<FormattedError>, c: string)
    requires HasCaption(entries, c)
    ensures CountCaption(entries, c) >= 1
  {
    var n := |entries| - 1;
    if entries[n].caption != c {
      var i :| 0 <= i < |entries| && entries[i].caption == c;
      assert entries[..n][i] == entries[i];
      CountPositive(entries[..n], c);
    }
  }

  lemma {:induction false} CountAppendTo(entries: seq<FormattedError>, c: string, m: string, d: string)
    ensures CountCaption(AppendTo(entries, c, m), d) == CountCaption(entries, d)
  {
    if |entries| > 0 {
      var n := |entries| - 1;
      assert AppendTo(entries, c, m)[..n] == AppendTo(entries[..n], c, m);
      CountAppendTo(entries[..n], c, m, d);
    }
  }

  predicate LabelsNonEmpty(errs: seq<Error>) {
    forall k :: 0 <= k < |errs| ==> errs[k].Labeled? ==> errs[k].caption != ""
  }

  /** Each non-empty label has at most one entry, and every message is
      counted once. */
  lemma {:induction false} FormattedInvariant(errs: seq<Error>, show: Error -> string)
    requires LabelsNonEmpty(errs)
    ensures TotalMessages(Formatted(errs, show)) == |errs|
    ensures forall c :: c != "" ==> CountCaption(Formatted(errs, show), c) <= 1
  {
    if |errs| > 0 {
      var n := |errs| - 1;
      var init := errs[..n];
      assert LabelsNonEmpty(init) by {
        assert forall k :: 0 <= k < n ==> init[k] == errs[k];
      }
      FormattedInvariant(init, show);
      var e := errs[n];
      assert e.Labeled? ==> e.caption != "";
      StepInvariant(Formatted(init, show), e, show);
    }
  }

  /** One step of the intended loop keeps labels unique and adds exactly
      one message. */
  lemma StepInvariant(prev: seq<FormattedError>, e: Error, show: Error -> string)
    requires e.Labeled? ==> e.caption != ""
    requires forall c :: c != "" ==> CountCaption(prev, c) <= 1
    ensures TotalMessages(Step(prev, e, show)) == TotalMessages(prev) + 1
    ensures forall c :: c != "" ==> CountCaption(Step(prev, e, show), c) <= 1
  {
    if e.Labeled? && HasCaption(prev, e.caption) {
      CountPositive(prev, e.caption);
      TotalAppendTo(prev, e.caption, show(e));
      forall c | c != ""
        ensures CountCaption(Step(prev, e, show), c) <= 1
      {
        CountAppendTo(prev, e.caption, show(e), c);
      }
    } else {
      var x := FormattedError(CaptionOf(e), [show(e)]);
      assert (prev + [x])[..|prev|] == prev;
      forall c | c != ""
        ensures CountCaption(Step(prev, e, show), c) <= 1
      {
        CountSnoc(prev, x, c);
        if x.caption == c {
          CountZero(prev, c);
        }
      }
    }
  }

  lemma {:induction false} CountZero(entries: seq<FormattedError>, c: string)
    requires !HasCaption(entries, c)
    ensures CountCaption(entries, c) == 0
  {
    if |entries| > 0 {
      var n := |entries| - 1;
      assert forall i :: 0 <= i < n ==> entries[..n][i] == entries[i];
      CountZero(entries[..n], c);
    }
  }

  /** Two errors with the same label: the loop as written shows only the
      first, the intended grouping shows both under one entry. */
  lemma SameLabelExample(show: Error -> string)
    ensures var errs := [Labeled("name", "x"), Labeled("name", "y")];
            FormattedAsWritten(errs, show) == [FormattedError("name", [show(errs[0])])] &&
            Formatted(errs, show) == [FormattedError("name", [show(errs[0]), show(errs[1])])]
  {
    var errs := [Labeled("name", "x"), Labeled("name", "y")];
    assert errs[..1] == [errs[0]];
    assert errs[..1][..0] == [];
    var one := [FormattedError("name", [show(errs[0])])];
    assert FormattedAsWritten(errs[..1], show) == one;
    assert one[0].caption == "name";
    assert HasCaption(one, "name");
    assert Formatted(errs[..1], show) == one;
    var both := AppendTo(one, "name", show(errs[1]));
    assert Formatted(errs, show) == both;
    assert both[0] == FormattedError("name", [show(errs[0]), show(errs[1])]);
  }

  /** `GetCleanFormattedErrorsOf`: the same entries, and the error list is
      emptied. */
  function CleanFormatted(errs: seq<Error>, show: Error -> string): (r: (seq<FormattedError>, seq<Error>))
    ensures r.0 == FormattedAsWritten(errs, show) && r.1 == []
  {
    (FormattedAsWritten(errs, show), [])
  }
}
