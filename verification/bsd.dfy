/** The transparent value newtypes of `src/bsd/mod.rs`. Both wrap a raw
    `c_uint` and deliberately stay open-ended: a raw value outside the named
    constants is still a valid value. */
module Bsd {
  import opened Bytes

  /** Framing type of the bound interface (`DLT_*`). The named `DLT_*`
      constants come from the platform C library and are not fixed here. */
  datatype DataLinkLayer = DataLinkLayer(raw: uint32)
  {
    static function FromRaw(raw: uint32): (d: DataLinkLayer)
      ensures d.raw == raw
    {
      DataLinkLayer(raw)
    }

    function AsRaw(): (raw: uint32)
      ensures FromRaw(raw) == this
    {
      this.raw
    }
  }

  /** Which direction of traffic is captured (`BPF_D_*`). */
  datatype BpfDirection = BpfDirection(raw: uint32)
  {
    static function FromRaw(raw: uint32): (d: BpfDirection)
      ensures d.raw == raw
    {
      BpfDirection(raw)
    }

    function AsRaw(): (raw: uint32)
      ensures FromRaw(raw) == this
    {
      this.raw
    }
  }

  const IN: BpfDirection := BpfDirection(0)
  const IN_OUT: BpfDirection := BpfDirection(1)
  const OUT: BpfDirection := BpfDirection(2)

  /** Wrapping then unwrapping returns the raw integer, for every raw value. */
  lemma DataLinkLayerRoundTrip(raw: uint32, d: DataLinkLayer)
    ensures DataLinkLayer.FromRaw(raw).AsRaw() == raw
    ensures DataLinkLayer.FromRaw(d.AsRaw()) == d
  {
  }

  lemma BpfDirectionRoundTrip(raw: uint32, d: BpfDirection)
    ensures BpfDirection.FromRaw(raw).AsRaw() == raw
    ensures BpfDirection.FromRaw(d.AsRaw()) == d
  {
  }

  /** Derived equality on a one-field wrapper is equality of the raw values. */
  lemma EqualityIsRawEquality(a: DataLinkLayer, b: DataLinkLayer, x: BpfDirection, y: BpfDirection)
    ensures a == b <==> a.AsRaw() == b.AsRaw()
    ensures x == y <==> x.AsRaw() == y.AsRaw()
  {
  }

  /** The three direction constants are 0, 1, 2 and pairwise distinct. */
  lemma DirectionConstants()
    ensures IN.AsRaw() == 0 && IN_OUT.AsRaw() == 1 && OUT.AsRaw() == 2
    ensures IN != IN_OUT && IN_OUT != OUT && IN != OUT
  {
  }
}
