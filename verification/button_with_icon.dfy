/** `getTruncatedName` of the icon button: long names are cut to 30 characters around an ellipsis,
    keeping the extension, with JavaScript's `slice` semantics for the cut point. */
module ButtonWithIcon {
  import opened Strings

  const MaxChars: int := 30
  const Ellipsis := "..."

  /** The shown name: unchanged up to 30 characters; otherwise, without a '.' past index 0, the
      first 27 characters and "..."; otherwise the head `name.slice(0, 30 - |ext| - 3)`, "..."
      and the extension `ext` (the suffix from the last '.'). */
  function TruncatedName(name: string): (r: string)
    ensures |name| <= MaxChars ==> r == name
    ensures |name| > MaxChars && LastIndexOf(name, '.') <= 0 ==>
      r == name[..27] + Ellipsis && |r| == MaxChars
    ensures var dot := LastIndexOf(name, '.');
      |name| > MaxChars && dot > 0 && |name| - dot <= 27 ==>
        && r == name[..27 - (|name| - dot)] + Ellipsis + name[dot..]
        && |r| == MaxChars
        && r[|r| - (|name| - dot)..] == name[dot..]
    ensures var dot := LastIndexOf(name, '.');
      |name| > MaxChars && dot > 0 && |name| - dot > 27 ==>
        && r == name[..dot + 27] + Ellipsis + name[dot..]
        && |r| == |name| + MaxChars
  {
    if |name| <= MaxChars then name
    else
      var extIndex := LastIndexOf(name, '.');
      if extIndex <= 0 then JsSlice(name, 0, MaxChars - 3) + Ellipsis
      else
        var ext := JsSlice(name, extIndex, |name|);
        var truncatedName := JsSlice(name, 0, MaxChars - |ext| - 3);
        truncatedName + Ellipsis + ext
  }

  /** `r` starts with some prefix of `name` directly followed by the ellipsis. */
  predicate HeadThenEllipsis(name: string, r: string) {
    exists k :: 0 <= k <= |name| && k + 3 <= |r| && r[..k] == name[..k] && r[k..k + 3] == Ellipsis
  }

  /** A name longer than 30 characters is always shown as a prefix of the name followed by the
      ellipsis. */
  lemma TruncatedNameKeepsHead(name: string)
    requires |name| > MaxChars
    ensures HeadThenEllipsis(name, TruncatedName(name))
  {
    var r := TruncatedName(name);
    var dot := LastIndexOf(name, '.');
    if dot <= 0 {
      assert r == name[..27] + Ellipsis + [];
      CutShowsHead(name, 27, []);
    } else if |name| - dot <= 27 {
      CutShowsHead(name, 27 - (|name| - dot), name[dot..]);
    } else {
      var k := dot + 27;
      assert r == name[..k] + Ellipsis + name[dot..];
      CutShowsHead(name, k, name[dot..]);
    }
  }

  /** A head of the name followed by the ellipsis and any tail shows that head. */
  lemma CutShowsHead(name: string, k: nat, tail: string)
    requires k <= |name|
    ensures HeadThenEllipsis(name, name[..k] + Ellipsis + tail)
  {
    var r := name[..k] + Ellipsis + tail;
    assert r[..k] == name[..k];
    assert r[k..k + 3] == Ellipsis;
  }

  /** The 30-character bound fails for long extensions: a 40-character name whose only '.' is at
      index 1 is shown with 70 characters. */
  lemma LongExtensionOverflows(name: string)
    requires |name| == 40 && name[1] == '.' && forall i :: 0 <= i < |name| && i != 1 ==> name[i] != '.'
    ensures |TruncatedName(name)| == 70
  {
    assert LastIndexOf(name, '.') == 1;
  }
}
