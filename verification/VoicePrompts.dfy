/** The voice-prompt cache of the speech backend: a prompt calibrated once per
    voice is reused until the idle reaper drops the model and the cache. */
module VoicePrompts {
  import opened Wrappers

  type Sound = seq<real>
  type Prompt = seq<int>

  /** The selected voice attributes; also the cache key. */
  type Voice = map<string, string>

  datatype Options = Options(
    voice: Voice, language: string, steps: nat, pace: real, prompt: Option<Prompt>)

  datatype Synthesis = Synthesis(sound: Sound, prompt: Option<Prompt>)

  /** A deterministic synthesizer; `None` when it fails. */
  datatype Synthesizer = Synthesizer(supportsPrompt: bool, synthesize: (string, Options) -> Option<Synthesis>)

  datatype Config = Config(referenceLanguage: string, referenceSteps: nat, referenceText: string)

  datatype Settings = Settings(voice: Voice, language: string, steps: nat, pace: real)

  /** Attributes left empty are not passed on. */
  function SelectedAttributes(voice: Voice): Voice
  {
    map name | name in voice && voice[name] != "" :: voice[name]
  }

  function SynthesisOptions(settings: Settings): Options
  {
    Options(SelectedAttributes(settings.voice), settings.language, settings.steps, settings.pace, None)
  }

  /** The calibration run copies the request's options but fixes everything
      except the voice. */
  function ReferenceOptions(cfg: Config, options: Options): Options
  {
    options.(language := cfg.referenceLanguage, steps := cfg.referenceSteps, pace := 1.0)
  }

  datatype Error = Unavailable | Cancelled | SynthesisFailed | NoPrompt

  datatype Result<T> = Ok(value: T) | Err(error: Error)

  /** What calibrating `voice` from scratch gives. */
  function Calibration(m: Synthesizer, cfg: Config, voice: Voice): Result<Prompt>
  {
    var options := Options(SelectedAttributes(voice), cfg.referenceLanguage, cfg.referenceSteps, 1.0, None);
    match m.synthesize(cfg.referenceText, options)
    case None => Err(SynthesisFailed)
    case Some(reference) => if reference.prompt.None? then Err(NoPrompt) else Ok(reference.prompt.value)
  }

  /** The prompt a request would use without a cache. */
  function FreshPrompt(m: Synthesizer, cfg: Config, voice: Voice): Result<Option<Prompt>>
  {
    if !m.supportsPrompt then Ok(None)
    else match Calibration(m, cfg, voice) case Err(e) => Err(e) case Ok(p) => Ok(Some(p))
  }

  /** A whole request without a cache. */
  function FreshSpeech(m: Synthesizer, cfg: Config, text: string, settings: Settings): Result<Sound>
  {
    match FreshPrompt(m, cfg, settings.voice)
    case Err(e) => Err(e)
    case Ok(prompt) =>
      match m.synthesize(text, SynthesisOptions(settings).(prompt := prompt))
      case None => Err(SynthesisFailed)
      case Some(s) => Ok(s.sound)
  }

  /** How the outside world interferes with one request: loading the model may
      fail, and the client may cancel during calibration or during synthesis. */
  datatype Weather = Weather(loads: bool, cancelsCalibration: bool, cancelsSynthesis: bool)

  const FAIR := Weather(true, false, false)

  class SpeechBackend {
    const m: Synthesizer
    const cfg: Config
    var loaded: bool
    var voicePrompts: map<Voice, Prompt>

    /** Cached prompts agree with recalibration, and exist only beside a loaded
        synthesizer that makes prompts. */
    ghost predicate Valid()
      reads this
    {
      && (voicePrompts != map[] ==> loaded && m.supportsPrompt)
      && forall voice :: voice in voicePrompts ==> Calibration(m, cfg, voice) == Ok(voicePrompts[voice])
    }

    constructor (m: Synthesizer, cfg: Config)
      ensures Valid() && this.m == m && this.cfg == cfg && !loaded && voicePrompts == map[]
    {
      this.m := m;
      this.cfg := cfg;
      loaded := false;
      voicePrompts := map[];
    }

    method PrepareTts(loads: bool) returns (ok: bool)
      requires Valid()
      modifies this
      ensures Valid() && ok == (old(loaded) || loads) && loaded == ok
      ensures voicePrompts == old(voicePrompts)
    {
      if !loaded {
        loaded := loads;
      }
      ok := loaded;
    }

    method VoicePromptLocked(voice: Voice, options: Options, cancelled: bool)
      returns (prompt: Result<Option<Prompt>>, reused: bool)
      requires Valid() && loaded
      requires options.voice == SelectedAttributes(voice) && options.prompt == None
      modifies this
      ensures Valid() && loaded
      ensures prompt.Ok? ==> prompt == FreshPrompt(m, cfg, voice)
      ensures prompt.Err? ==> prompt == Err(Cancelled) || prompt == FreshPrompt(m, cfg, voice)
      ensures !cancelled || reused ==> prompt == FreshPrompt(m, cfg, voice)
      ensures reused <==> !m.supportsPrompt || voice in old(voicePrompts)
      ensures voicePrompts == if prompt.Ok? && !reused then old(voicePrompts)[voice := prompt.value.value]
                              else old(voicePrompts)
    {
      if !m.supportsPrompt {
        return Ok(options.prompt), true;
      }
      if voice in voicePrompts {
        return Ok(Some(voicePrompts[voice])), true;
      }
      reused := false;
      if cancelled {
        return Err(Cancelled), false;
      }
      var reference := m.synthesize(cfg.referenceText, ReferenceOptions(cfg, options));
      if reference.None? {
        return Err(SynthesisFailed), false;
      }
      if reference.value.prompt.None? {
        return Err(NoPrompt), false;
      }
      voicePrompts := voicePrompts[voice := reference.value.prompt.value];
      prompt := Ok(Some(voicePrompts[voice]));
    }

    /** Whatever was cached or evicted before, a request that gets through sounds
        exactly as it would without a cache. */
    method Synthesize(text: string, settings: Settings, w: Weather) returns (sound: Result<Sound>)
      requires Valid()
      modifies this
      ensures Valid()
      ensures sound.Ok? ==> sound == FreshSpeech(m, cfg, text, settings)
      ensures w == FAIR ==> sound == FreshSpeech(m, cfg, text, settings)
      ensures forall voice :: voice in old(voicePrompts) ==>
                voice in voicePrompts && voicePrompts[voice] == old(voicePrompts)[voice]
    {
      var prepared := PrepareTts(w.loads);
      if !prepared {
        return Err(Unavailable);
      }
      var options := SynthesisOptions(settings);
      var prompt, reused := VoicePromptLocked(settings.voice, options, w.cancelsCalibration);
      if prompt.Err? {
        return Err(prompt.error);
      }
      if w.cancelsSynthesis {
        return Err(Cancelled);
      }
      options := options.(prompt := prompt.value);
      var result := m.synthesize(text, options);
      sound := if result.None? then Err(SynthesisFailed) else Ok(result.value.sound);
    }

    /** `prepare_tts_profile`, in the background or for voice mode. */
    method WarmUp(settings: Settings, w: Weather) returns (ok: bool)
      requires Valid()
      modifies this
      ensures Valid()
      ensures w == FAIR ==> ok == FreshPrompt(m, cfg, settings.voice).Ok?
      ensures ok && m.supportsPrompt ==> settings.voice in voicePrompts
    {
      var prepared := PrepareTts(w.loads);
      if !prepared {
        return false;
      }
      var prompt, reused := VoicePromptLocked(settings.voice, SynthesisOptions(settings), w.cancelsCalibration);
      ok := prompt.Ok?;
    }

    /** The idle reaper. */
    method Evict()
      requires Valid()
      modifies this
      ensures Valid() && !loaded && voicePrompts == map[]
    {
      loaded := false;
      voicePrompts := map[];
    }
  }

  // ---------------------------------------------------------------- whole runs

  datatype Event =
    | Speak(text: string, settings: Settings, weather: Weather)
    | Prepare(settings: Settings, weather: Weather)
    | Reap

  /** Runs the events on one backend; `sounds` lists what the requests returned. */
  method Serve(m: Synthesizer, cfg: Config, events: seq<Event>) returns (sounds: seq<Result<Sound>>)
    ensures |sounds| == |Requests(events)|
    ensures forall i :: 0 <= i < |sounds| ==>
              var request := Requests(events)[i];
              && (sounds[i].Ok? ==> sounds[i] == FreshSpeech(m, cfg, request.text, request.settings))
              && (request.weather == FAIR ==> sounds[i] == FreshSpeech(m, cfg, request.text, request.settings))
  {
    var backend := new SpeechBackend(m, cfg);
    sounds := [];
    for n := 0 to |events|
      invariant backend.Valid() && fresh(backend) && backend.m == m && backend.cfg == cfg
      invariant |sounds| == |Requests(events[..n])|
      invariant forall i :: 0 <= i < |sounds| ==>
                  var request := Requests(events[..n])[i];
                  && (sounds[i].Ok? ==> sounds[i] == FreshSpeech(m, cfg, request.text, request.settings))
                  && (request.weather == FAIR ==> sounds[i] == FreshSpeech(m, cfg, request.text, request.settings))
    {
      assert events[..n + 1][..n] == events[..n];
      match events[n]
      case Speak(text, settings, weather) =>
        var sound := backend.Synthesize(text, settings, weather);
        sounds := sounds + [sound];
      case Prepare(settings, weather) =>
        var ok := backend.WarmUp(settings, weather);
      case Reap =>
        backend.Evict();
    }
    assert events[..|events|] == events;
  }

  ghost function Requests(events: seq<Event>): (r: seq<Event>)
    ensures forall e :: e in r ==> e.Speak?
  {
    if events == [] then []
    else
      var front, last := Requests(events[..|events| - 1]), events[|events| - 1];
      if last.Speak? then front + [last] else front
  }
}
