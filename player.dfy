/**
 * The player controller: the `Beard` singleton with the DOM and the `Audio`
 * object abstracted into fields. `src` is the audio object's source, `text`
 * and `time` are the contents of the `.text` and `.time` elements, and
 * `hasPlayingClass` says whether the player element carries the `playing`
 * class. `restores` records, for every error shown so far, the text that its
 * repeating 3-second timer puts back.
 */
module Player {
  import opened Wrappers
  import AudioFormat
  import TimeFormat

  /** The message `load` passes to `error` for a rejected URL. */
  const InvalidUrlMessage: string := "Invalid audio url."

  class Beard {
    var playing: bool
    var src: string
    var text: string
    var time: string
    var hasPlayingClass: bool
    var restores: seq<string>

    /**
     * `init`: a fresh audio object has the empty source, and a truthy
     * `data-source` attribute becomes the source WITHOUT being validated. The
     * text, the time and the class are whatever the markup holds.
     */
    constructor Init(dataSource: Option<string>, markupText: string, markupTime: string, markupPlaying: bool)
      ensures src == (if dataSource.Some? && dataSource.value != "" then dataSource.value else "")
      ensures !playing && text == markupText && time == markupTime
      ensures hasPlayingClass == markupPlaying && restores == []
    {
      playing := false;
      src := "";
      text := markupText;
      time := markupTime;
      hasPlayingClass := markupPlaying;
      restores := [];
      new;
      if dataSource.Some? && dataSource.value != "" {
        SetSource(dataSource.value);
      }
    }

    /** `setSource`: the audio source becomes `url`; nothing else changes. */
    method SetSource(url: string)
      modifies this`src
      ensures src == url
    {
      src := url;
    }

    /** `displayText`: the text element shows `newText`; nothing else changes. */
    method DisplayText(newText: string)
      modifies this`text
      ensures text == newText
    {
      text := newText;
    }

    /**
     * `error`: the current text is captured for the timer that restores it,
     * then "Error: " and the message is shown.
     */
    method Error(message: string)
      modifies this`text, this`restores
      ensures text == "Error: " + message
      ensures restores == old(restores) + [old(text)]
    {
      var prevMessage := text;
      DisplayText("Error: " + message);
      restores := restores + [prevMessage];
    }

    /**
     * One firing of the timer of the `i`-th error: its captured text is shown
     * again. The timer stays armed (`restores` is unchanged), so it fires again.
     */
    method RestoreFires(i: nat)
      requires i < |restores|
      modifies this`text
      ensures text == restores[i]
    {
      DisplayText(restores[i]);
    }

    /** `pause`: the flag and the class are cleared, whatever they were. */
    method Pause()
      modifies this`playing, this`hasPlayingClass
      ensures !playing && !hasPlayingClass
    {
      playing := false;
      hasPlayingClass := false;
    }

    /**
     * `play`: one button serves both actions. When playing it pauses;
     * otherwise it sets the flag and adds the class.
     */
    method Play()
      modifies this`playing, this`hasPlayingClass
      ensures playing == !old(playing)
      ensures hasPlayingClass == playing
    {
      if playing {
        Pause();
        return;
      }
      playing := true;
      hasPlayingClass := true;
    }

    /**
     * `load`: an invalid URL only shows the error (source and playback are
     * untouched); a valid one stops playback, shows `newText` and becomes the
     * source.
     */
    method Load(url: Option<string>, newText: string)
      modifies this`playing, this`hasPlayingClass, this`text, this`src, this`restores
      ensures AudioFormat.IsValidAudioFormat(url) ==>
        && url.Some? && src == url.value && text == newText
        && !playing && !hasPlayingClass && restores == old(restores)
      ensures !AudioFormat.IsValidAudioFormat(url) ==>
        && src == old(src) && playing == old(playing) && hasPlayingClass == old(hasPlayingClass)
        && text == "Error: " + InvalidUrlMessage && restores == old(restores) + [old(text)]
    {
      if !AudioFormat.IsValidAudioFormat(url) {
        Error(InvalidUrlMessage);
        return;
      }
      Pause();
      DisplayText(newText);
      SetSource(url.value);
    }

    /**
     * `displayTime`: the time element shows the formatted position and
     * duration the audio object reports.
     */
    method DisplayTime(currentTime: real, duration: Option<real>)
      requires currentTime >= 0.0
      requires duration.Some? ==> duration.value >= 0.0
      modifies this`time
      ensures time == TimeFormat.TimeString(currentTime, duration)
    {
      time := TimeFormat.TimeString(currentTime, duration);
    }
  }

  /** `init` keeps an unsupported `data-source`; only `load` validates. */
  method InitKeepsUnvalidatedSource() returns (b: Beard)
    ensures fresh(b) && b.src == "track.wav"
    ensures !AudioFormat.IsValidAudioFormat(Some(b.src))
  {
    b := new Beard.Init(Some("track.wav"), "", "", false);
    AudioFormat.RejectedByCharacter("track.wav", 2, 'v');
  }

  /**
   * Two rejected loads in a row: the second error captures the first error's
   * text, so its timer keeps putting the error message back while the first
   * timer keeps putting the original text back.
   */
  method RepeatedErrorScenario(b: Beard, url: string)
    requires !AudioFormat.IsValidAudioFormat(Some(url))
    modifies b
    ensures b.src == old(b.src) && b.playing == old(b.playing)
    ensures b.hasPlayingClass == old(b.hasPlayingClass) && b.time == old(b.time)
    ensures b.restores == old(b.restores) + [old(b.text), "Error: " + InvalidUrlMessage]
    ensures b.text == "Error: " + InvalidUrlMessage
  {
    b.Load(Some(url), "ignored");
    b.Load(Some(url), "ignored");
  }

  /**
   * A valid load always leaves the player stopped, with the flag and the class
   * both cleared, and a play then starts it.
   */
  method LoadThenPlay(b: Beard, url: string, title: string)
    requires AudioFormat.IsValidAudioFormat(Some(url))
    modifies b
    ensures b.src == url && b.text == title
    ensures b.playing && b.hasPlayingClass
    ensures b.restores == old(b.restores) && b.time == old(b.time)
  {
    b.Load(Some(url), title);
    b.Play();
  }
}
