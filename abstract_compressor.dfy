/** The session state every codec shares: the current mode and the last compression
    rate recorded. Codecs hold a `Compressor` instead of inheriting from it. */
module AbstractCompressor {

  datatype Mode = Compress | Decompress

  class Compressor {
    var crtMode: Mode
    /** A Java `double`; the model only stores and returns it. */
    var compressRate: real

    /** A fresh session starts in Compress mode with rate 1. */
    constructor ()
      ensures crtMode == Compress && compressRate == 1.0
    {
      crtMode := Compress;
      compressRate := 1.0;
    }

    /** `getCompressRate()`: a pure read of the stored rate. */
    method GetCompressRate() returns (rate: real)
      ensures rate == compressRate
    {
      rate := compressRate;
    }

    /** `setCompressRate(rate)`: stores the rate and leaves the mode alone. */
    method SetCompressRate(rate: real)
      modifies this
      ensures compressRate == rate && crtMode == old(crtMode)
    {
      compressRate := rate;
    }

    /** `mode()`: a pure read of the current mode. */
    method GetMode() returns (m: Mode)
      ensures m == crtMode
    {
      m := crtMode;
    }

    /** `setCompressMode()`: the mode becomes Compress whatever it was; the rate is kept. */
    method SetCompressMode()
      modifies this
      ensures crtMode == Compress && compressRate == old(compressRate)
    {
      crtMode := Compress;
    }

    /** `setDecompressMode()`: the mode becomes Decompress whatever it was; the rate is kept. */
    method SetDecompressMode()
      modifies this
      ensures crtMode == Decompress && compressRate == old(compressRate)
    {
      crtMode := Decompress;
    }
  }
}
