/** One labelled stretch of audio, in exact seconds. */
module Segments {
  datatype Segment = Segment(start: real, duration: real, speaker: string) {
    function End(): real {
      start + duration
    }
  }
}
