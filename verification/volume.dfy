/** `AudioVolume.Create`, declared identically in Player/AudioVolume.cs and
    Other/AudioVolume.cs: the volume is the argument clamped to 0..100. */
module Volume {
  import opened Common

  datatype AudioVolume = AudioVolume(value: int)

  function Create(v: int): (r: AudioVolume)
    ensures 0 <= r.value <= 100
    ensures 0 <= v <= 100 ==> r.value == v
    ensures v < 0 ==> r.value == 0
    ensures v > 100 ==> r.value == 100
  {
    AudioVolume(Clamp(v, 0, 100))
  }

  /** Creating from a created volume changes nothing. */
  lemma CreateIdempotent(v: int)
    ensures Create(Create(v).value) == Create(v)
  {
  }

  /** A louder request never gives a quieter volume. */
  lemma CreateMonotone(v: int, w: int)
    requires v <= w
    ensures Create(v).value <= Create(w).value
  {
  }
}
