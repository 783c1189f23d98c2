/** The logical events stored in sequences: control (tempo), CV and MIDI. */
module Events {
  import opened Ints

  /** The events' `float` payloads are only stored and copied, never
      computed on, so a real number stands for them. */
  type Float = real

  datatype ControlEventType = None | GlobalTempo | RelativeTempo

  /** A tempo change: for GlobalTempo the new global tempo, for
      RelativeTempo the factor relative to it. */
  datatype ControlEvent = ControlEvent(eventType: ControlEventType := ControlEventType.None,
                                       value: Float := 0.0)

  datatype CvEventType = None | Interval

  /** A CV event: a start value and an end value. `SetValue` changes it in
      place, so it is an object. */
  class CvEvent {
    var eventType: CvEventType
    var value1: Float
    var value2: Float

    constructor (theType: CvEventType := CvEventType.None, value1: Float := 0.0, value2: Float := 0.0)
      ensures eventType == theType
      ensures this.value1 == value1 && this.value2 == value2
    {
      eventType := theType;
      this.value1 := value1;
      this.value2 := value2;
    }

    /** Holds one value: start and end both become `value`. */
    method SetValue(value: Float)
      modifies this
      ensures value1 == value && value2 == value
      ensures eventType == old(eventType)
    {
      value1 := value;
      value2 := value;
    }
  }

  datatype MidiEventType = None | On | Off | CC | PitchBend

  /** ON: note and velocity; CC: controller and value; PITCHBEND: bend. */
  datatype MidiEvent = MidiEvent(eventType: MidiEventType := MidiEventType.None,
                                 value1: uint32 := 0, value2: uint32 := 0)

  lemma ControlEventDefaults(t: ControlEventType, v: Float)
    ensures ControlEvent() == ControlEvent(ControlEventType.None, 0.0)
    ensures ControlEvent(t).value == 0.0
    ensures ControlEvent(t, v).eventType == t && ControlEvent(t, v).value == v
  {
  }

  lemma MidiEventDefaults(t: MidiEventType, v1: uint32, v2: uint32)
    ensures MidiEvent() == MidiEvent(MidiEventType.None, 0, 0)
    ensures MidiEvent(t) == MidiEvent(t, 0, 0)
    ensures MidiEvent(t, v1).value2 == 0
    ensures MidiEvent(t, v1, v2).eventType == t
    ensures MidiEvent(t, v1, v2).value1 == v1 && MidiEvent(t, v1, v2).value2 == v2
  {
  }

  /** A default CV event, and what `SetValue` does to it. */
  method CvEventDefaults(v: Float) returns (e: CvEvent)
    ensures fresh(e)
    ensures e.eventType == CvEventType.None && e.value1 == v && e.value2 == v
  {
    e := new CvEvent();
    assert e.eventType == CvEventType.None && e.value1 == 0.0 && e.value2 == 0.0;
    e.SetValue(v);
  }
}
