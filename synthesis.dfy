/** The speech-synthesis request both the API route and the voice generator service
    build for the external model: the text, three voice parameters and fixed settings. */
module Synthesis {

  datatype Emotion = Neutral | Happy | Angry

  /** The name the external model expects. */
  function EmotionName(e: Emotion): string {
    match e
    case Neutral => "neutral"
    case Happy => "happy"
    case Angry => "angry"
  }

  /** Emotions ordered by how aggressive they sound. */
  function EmotionRank(e: Emotion): nat {
    match e
    case Neutral => 0
    case Happy => 1
    case Angry => 2
  }

  datatype VoiceParams = VoiceParams(emotion: Emotion, pitch: real, speed: real)

  datatype SynthesisInput = SynthesisInput(
    text: string,
    pitch: real,
    speed: real,
    volume: int,
    bitrate: int,
    channel: string,
    emotion: string,
    voiceId: string,
    sampleRate: int,
    languageBoost: string,
    englishNormalization: bool)

  const Volume := 1
  const Bitrate := 128000
  const Channel := "mono"
  const VoiceId := "R8_QBE6P33A"
  const SampleRate := 32000
  const LanguageBoost := "English"

  /** The input object sent with the synthesis request: the given text and voice
      parameters (the emotion by its name), mono audio at 32 kHz and 128 kbit/s, the fixed voice, English. */
  function InputFor(text: string, params: VoiceParams): (input: SynthesisInput)
    ensures input.text == text
    ensures input.pitch == params.pitch && input.speed == params.speed
    ensures input.emotion == EmotionName(params.emotion)
    ensures input.volume == 1 && input.bitrate == 128000 && input.channel == "mono"
    ensures input.voiceId == "R8_QBE6P33A" && input.sampleRate == 32000
    ensures input.languageBoost == "English" && input.englishNormalization
  {
    SynthesisInput(text, params.pitch, params.speed, Volume, Bitrate, Channel,
                   EmotionName(params.emotion), VoiceId, SampleRate, LanguageBoost, true)
  }
}
