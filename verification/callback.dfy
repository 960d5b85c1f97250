/** How `handle_callback` reads a button's callback data: `cancel`, a video
    quality (`video_<q>`), audio (`audio_…`), or an option it does not know. */
module Callback {
  import opened Wrappers
  import opened Text
  import opened Decimal
  import QualityMenu

  /** The choice a button press selects. `quality` is the text the source takes
      as `data.split("_")[1]`. */
  datatype Action = Cancel | Video(quality: string) | Audio | Invalid

  const AudioPrefix: string := "audio_"

  /** The dispatch at bot.py:187-207, in the order the source tests it. */
  function Dispatch(data: string): (a: Action)
    ensures a == Cancel <==> data == QualityMenu.CancelCallback
    ensures a.Video? <==> data != QualityMenu.CancelCallback && StartsWith(data, QualityMenu.VideoPrefix)
    ensures a.Audio? <==>
              && data != QualityMenu.CancelCallback
              && !StartsWith(data, QualityMenu.VideoPrefix)
              && StartsWith(data, AudioPrefix)
    ensures a.Video? ==>
              && '_' !in a.quality
              && StartsWith(data[|QualityMenu.VideoPrefix|..], a.quality)
              && (|data| == |QualityMenu.VideoPrefix| + |a.quality| || data[|QualityMenu.VideoPrefix| + |a.quality|] == '_')
  {
    if data == QualityMenu.CancelCallback then Cancel
    else if StartsWith(data, QualityMenu.VideoPrefix) then
      var rest := data[|QualityMenu.VideoPrefix|..];
      assert data == "video" + ['_'] + rest;
      SplitAtSeparator("video", '_', rest);
      SplitWithoutSeparator("video", '_');
      SplitFirstPiece(rest, '_');
      assert Split(data, '_')[1] == Split(rest, '_')[0];
      Video(Split(data, '_')[1])
    else if StartsWith(data, AudioPrefix) then Audio
    else Invalid
  }

  /** A video button's data dispatches to a video download whose quality reads
      back as the button's height. */
  lemma DispatchVideoCallback(h: nat)
    ensures Dispatch(QualityMenu.VideoCallback(h)) == Video(NatToString(h))
    ensures ParseNat(Dispatch(QualityMenu.VideoCallback(h)).quality) == Some(h)
  {
    var data := QualityMenu.VideoCallback(h);
    var q := Dispatch(data).quality;
    var digits := NatToString(h);
    assert data[|QualityMenu.VideoPrefix|..] == digits;
    assert '_' !in digits by {
      assert forall i :: 0 <= i < |digits| ==> IsDigit(digits[i]);
    }
    assert q == digits[..|q|];
    assert |q| == |digits|;
    ParseNatToString(h);
  }

  /** Round trip between the menu and the dispatcher: every button of the
      quality menu selects something valid. The video buttons select video
      downloads of their heights, in menu order, and the last two buttons
      select audio and cancel. */
  lemma MenuButtonsDispatch(fs: seq<QualityMenu.VideoFormat>)
    ensures var r := QualityMenu.MenuCallbacks(fs);
            && (forall i :: 0 <= i < |r| ==> Dispatch(r[i]) != Invalid)
            && (forall i :: 0 <= i < |r| - 2 ==>
                  Dispatch(r[i]) == Video(NatToString(QualityMenu.TopHeights(fs)[i])))
            && Dispatch(r[|r| - 2]) == Audio
            && Dispatch(r[|r| - 1]) == Cancel
  {
    var r := QualityMenu.MenuCallbacks(fs);
    var top := QualityMenu.TopHeights(fs);
    forall i | 0 <= i < |r| - 2
      ensures Dispatch(r[i]) == Video(NatToString(top[i]))
    {
      DispatchVideoCallback(top[i]);
    }
    assert StartsWith(QualityMenu.AudioCallback, AudioPrefix);
    assert !StartsWith(QualityMenu.AudioCallback, QualityMenu.VideoPrefix);
  }
}
