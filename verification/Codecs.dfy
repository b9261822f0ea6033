/** The media codecs both crates know (dave/src/frame.rs). */
module Codecs {
  datatype Codec = Opus | Vp8 | Vp9 | H264 | H265 | Av1
}
