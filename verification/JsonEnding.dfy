/** What may stand around a value: a byte order mark and white space before it, and what behind it. */
module JsonEnding {
  import opened Bytes
  import opened JsonTree
  import opened JsonNumber
  import opened JsonGrammar
  import opened JsonRender
  import opened JsonRoundTrip

  predicate BlankFrom(c: seq<byte>, e: nat) {
    forall k :: e <= k < |c| ==> c[k] <= 32
  }

  lemma {:induction false} SkipAllBlank(c: seq<byte>, e: nat)
    requires e < |c| && BlankFrom(c, e)
    ensures Skip(c, e) == |c| - 1
    decreases |c| - e
  {
    if e + 1 < |c| {
      SkipAllBlank(c, e + 1);
    }
  }

  /** A text that must end behind its value is accepted exactly when it is accepted otherwise and only white space
      follows the value, and then the end handed back is the terminator; a text that has more is rejected at the first
      byte that is not white space. */
  lemma EndRequirement(c: seq<byte>)
    requires Terminated(c)
    ensures
      var r := ParseText(c, false);
      match r
      case Fail(_, _) => ParseText(c, true) == r
      case Done(value, next) =>
        && (BlankFrom(c, next) ==> ParseText(c, true) == Done(value, |c| - 1))
        && (!BlankFrom(c, next) ==>
              var t := ParseText(c, true);
              t.Fail? && next <= t.at < |c| && c[t.at] > 32 && forall k :: next <= k < t.at ==> c[k] <= 32)
  {
    hide ParseValue, Skip;
    var r := ParseText(c, false);
    if r.Done? && BlankFrom(c, r.next) {
      SkipAllBlank(c, r.next);
    }
  }

  /** A printed text is read as its value behind a byte order mark and any white space, whatever stands behind it;
      when the text must end, exactly if that is white space. */
  lemma PrintedTextAmid(c: seq<byte>, b: nat, o: nat, j: Json, fmt: bool, num: NumberText)
    requires Terminated(c) && Readable(j, num) && Nesting(j) <= NESTING_LIMIT
    requires b == 0 || (b == 3 && At(c, 0, [0xEF, 0xBB, 0xBF]))
    requires b <= o && At(c, o, Render(j, fmt, 0, num)) && forall k :: b <= k < o ==> k < |c| && c[k] <= 32
    requires
      var e := o + |Render(j, fmt, 0, num)|;
      e < |c| && (j.Number? ==> !IsNumberChar(c[e]))
    ensures
      var e := o + |Render(j, fmt, 0, num)|;
      && ParseText(c, false) == Done(j, e)
      && if BlankFrom(c, e) then ParseText(c, true) == Done(j, |c| - 1) else ParseText(c, true).Fail?
  {
    hide ParseValue, Skip, Render, Readable, At;
    RenderStarts(j, fmt, 0, num);
    AtIndex(c, o, Render(j, fmt, 0, num), 0);
    if b == 0 && At(c, 0, BOM) {
      AtIndex(c, 0, BOM, 0);
      assert false;
    }
    SkipTo(c, b, o);
    ValueReadsBack(c, o, 0, j, fmt, 0, num);
    EndRequirement(c);
  }
}
