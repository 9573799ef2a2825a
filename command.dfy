/**
 * `GlueCommand`: gathers the text to upload from the selection, reduces the
 * view's file name to its base name, and decides, from the saved snippet,
 * whether to share the URL or report the error.
 */
module Command {
  import opened Python
  import opened SublimeText
  import opened Snippet

  /** The texts of the non-empty regions of `sel`, in selection order. */
  function NonEmptyTexts(text: string, sel: seq<Region>): (texts: seq<string>)
    requires AllInView(text, sel)
    decreases |sel|
  {
    if sel == [] then []
    else
      var init := NonEmptyTexts(text, sel[..|sel| - 1]);
      var r := sel[|sel| - 1];
      if r.Empty() then init else init + [Substr(text, r)]
  }

  /** The positions of the non-empty regions of `sel`, in selection order. */
  function NonEmptyPositions(sel: seq<Region>): (pos: seq<nat>)
    decreases |sel|
  {
    if sel == [] then []
    else
      var init := NonEmptyPositions(sel[..|sel| - 1]);
      if sel[|sel| - 1].Empty() then init else init + [|sel| - 1]
  }

  /**
   * What `selectedRegions` returns: the texts of the non-empty regions, or,
   * when there are none, the whole buffer as the one part.
   */
  function Gathered(text: string, sel: seq<Region>): (parts: seq<string>)
    requires AllInView(text, sel)
    ensures |parts| >= 1
    ensures NonEmptyTexts(text, sel) == [] ==> parts == [text[0..|text|]]
    ensures NonEmptyTexts(text, sel) != [] ==> parts == NonEmptyTexts(text, sel)
  {
    var texts := NonEmptyTexts(text, sel);
    if |texts| > 0 then texts else [text[0..|text|]]
  }

  /** `selectedRegions()`: collects the non-empty regions' texts in one pass. */
  method SelectedRegions(text: string, sel: seq<Region>) returns (parts: seq<string>)
    requires AllInView(text, sel)
    ensures parts == Gathered(text, sel)
  {
    parts := [];
    for i := 0 to |sel|
      invariant parts == NonEmptyTexts(text, sel[..i])
    {
      var region := sel[i];
      assert sel[..i + 1][..i] == sel[..i];
      if !region.Empty() {
        parts := parts + [Substr(text, Region(region.Begin(), region.End()))];
      }
    }
    assert sel[..|sel|] == sel;
    if |parts| > 0 {
      return parts;
    }
    return [text[0..|text|]];
  }

  /** Gathering a concatenated selection concatenates the texts. */
  lemma {:induction false} NonEmptyTextsAppend(text: string, s: seq<Region>, t: seq<Region>)
    requires AllInView(text, s + t)
    ensures AllInView(text, s) && AllInView(text, t)
    ensures NonEmptyTexts(text, s + t) == NonEmptyTexts(text, s) + NonEmptyTexts(text, t)
    decreases |t|
  {
    assert forall i :: 0 <= i < |s| ==> s[i] == (s + t)[i];
    assert forall i :: 0 <= i < |t| ==> t[i] == (s + t)[|s| + i];
    if t == [] {
      assert s + t == s;
    } else {
      var t' := t[..|t| - 1];
      assert (s + t)[..|s + t| - 1] == s + t';
      NonEmptyTextsAppend(text, s, t');
    }
  }

  /** An empty region, wherever it stands in the selection, contributes nothing. */
  lemma EmptyRegionContributesNothing(text: string, s: seq<Region>, r: Region, t: seq<Region>)
    requires AllInView(text, s + [r] + t) && r.Empty()
    ensures AllInView(text, s + t)
    ensures NonEmptyTexts(text, s + [r] + t) == NonEmptyTexts(text, s + t)
  {
    NonEmptyTextsAppend(text, s + [r], t);
    NonEmptyTextsAppend(text, s, [r]);
    assert [r][..0] == [];
    assert forall i :: 0 <= i < |s + t| ==> (s + t)[i] == (if i < |s| then (s + [r] + t)[i] else (s + [r] + t)[i + 1]);
    NonEmptyTextsAppend(text, s, t);
  }

  /**
   * `NonEmptyPositions` lists, in increasing order, exactly the positions of
   * the non-empty regions of the selection.
   */
  lemma {:induction false} NonEmptyPositionsExactly(sel: seq<Region>)
    ensures var pos := NonEmptyPositions(sel);
            && (forall k :: 0 <= k < |pos| ==> pos[k] < |sel| && !sel[pos[k]].Empty())
            && (forall k, l :: 0 <= k < l < |pos| ==> pos[k] < pos[l])
            && (forall i :: 0 <= i < |sel| && !sel[i].Empty() ==> i in pos)
    decreases |sel|
  {
    if sel != [] {
      var init := sel[..|sel| - 1];
      NonEmptyPositionsExactly(init);
      assert forall i :: 0 <= i < |init| ==> init[i] == sel[i];
    }
  }

  /**
   * The texts are those of the regions at `NonEmptyPositions`, one per
   * position: with `NonEmptyPositionsExactly`, the texts of the non-empty
   * regions, in selection order, none left out.
   */
  lemma {:induction false} NonEmptyTextsAtPositions(text: string, sel: seq<Region>)
    requires AllInView(text, sel)
    ensures var texts, pos := NonEmptyTexts(text, sel), NonEmptyPositions(sel);
            && |texts| == |pos|
            && (forall k :: 0 <= k < |pos| ==>
                  pos[k] < |sel| && texts[k] == Substr(text, sel[pos[k]]))
    decreases |sel|
  {
    if sel != [] {
      var init := sel[..|sel| - 1];
      NonEmptyTextsAtPositions(text, init);
      var texts, pos := NonEmptyTexts(text, init), NonEmptyPositions(init);
      forall k | 0 <= k < |pos|
        ensures pos[k] < |sel| && texts[k] == Substr(text, sel[pos[k]])
      {
        assert init[pos[k]] == sel[pos[k]];
      }
    }
  }

  /** Some region contributes text exactly when some region is non-empty. */
  lemma {:induction false} NoTextsIffAllEmpty(text: string, sel: seq<Region>)
    requires AllInView(text, sel)
    ensures NonEmptyTexts(text, sel) == [] <==> forall i :: 0 <= i < |sel| ==> sel[i].Empty()
    decreases |sel|
  {
    if sel != [] {
      var init := sel[..|sel| - 1];
      NoTextsIffAllEmpty(text, init);
      assert forall i :: 0 <= i < |init| ==> init[i] == sel[i];
    }
  }

  /** Every text gathered from a selected region is non-empty. */
  lemma {:induction false} SelectedTextsNonEmpty(text: string, sel: seq<Region>)
    requires AllInView(text, sel)
    ensures forall k :: 0 <= k < |NonEmptyTexts(text, sel)| ==> NonEmptyTexts(text, sel)[k] != []
    decreases |sel|
  {
    if sel != [] {
      SelectedTextsNonEmpty(text, sel[..|sel| - 1]);
    }
  }

  /**
   * `getFilename()`: `''` without a file name; otherwise the last part of the
   * path split on the separator, which is the longest separator-free suffix
   * of the path.
   */
  function GetFilename(fileName: Option<string>, sep: char): (name: string)
    ensures fileName.None? ==> name == []
    ensures fileName.Some? ==> IsLastComponent(fileName.value, sep, name)
  {
    match fileName
    case None => []
    case Some(path) =>
      var parts := Split(path, sep);
      LastPartIsLastComponent(path, sep);
      parts[|parts| - 1]
  }

  /**
   * What `run` does with the saved snippet: share its URL, or report its
   * error; or nothing, when an exception escapes `save` and ends the command.
   */
  datatype Reaction = Shared(url: string) | Reported(error: LastError) | Aborted(exception: string)

  /**
   * `run()`: gathers the selection and file name, builds and saves a
   * snippet, and shares the URL if it was saved or reports the error
   * otherwise. The clipboard, browser and notifications are not modelled;
   * which of the two branches runs, and with what, is. An exception that
   * escapes `save` ends the command before either branch.
   */
  method Run(text: string, sel: seq<Region>, fileName: Option<string>, sep: char,
             settings: Settings, reply: PostOutcome)
    returns (sent: Option<Request>, reaction: Reaction)
    requires AllInView(text, sel)
    ensures var key := PackageSetting(settings, "api_key");
            var paste := PackageSetting(settings, "paste_url");
            && (sent.Some? <==> ValidApiKey(key) && ValidPasteUrl(paste))
            && (sent.Some? ==> sent.value == Request(paste, Gathered(text, sel), key, GetFilename(fileName, sep), true))
            && (reaction.Shared? <==> sent.Some? && reply.Redirected?)
            && (reaction.Shared? ==> reaction.url == reply.finalUrl)
            && (!ValidApiKey(key) ==> reaction == Reported(Message(ApiKeyMessage)))
            && (ValidApiKey(key) && !ValidPasteUrl(paste) ==> reaction == Reported(Message(PasteUrlMessage)))
            && (sent.Some? && reply.IoFailure? ==> reaction == Reported(IoError(reply.reason)))
            && (reaction.Aborted? <==> sent.Some? && reply.Raised?)
            && (reaction.Aborted? ==> reaction.exception == reply.exception)
  {
    var regions := SelectedRegions(text, sel);
    var snippet := new GlueSnippet(settings, GetFilename(fileName, sep), regions);
    var escaped;
    snippet, sent, escaped := snippet.Save(reply);
    if escaped.Some? {
      reaction := Aborted(escaped.value);
    } else if snippet.Saved() {
      reaction := Shared(snippet.Url().value);
    } else {
      reaction := Reported(snippet.lastError);
    }
  }
}
