/** The build configuration of the formatter. The source selects it with
    preprocessor flags (printf.c:5-46); here it is an explicit record. The
    flag that makes `l` a recognised modifier (FEATURE_32BIT) is always on,
    since printf.c:153 and printf.c:205 use `longness`, which only exists
    when it is set (printf.c:108-109). */
module Configuration {
  import opened CInts

  /** Width of the C type `int` on the targets modelled here. */
  const IntBits: nat := 32
  /** Width of `short`, the type `h` selects. */
  const ShortBits: nat := 16
  /** Width of `char`, the type `hh` selects. */
  const CharBits: nat := 8

  /** AUX_BUFFER_SIZE (printf.c:31): one sign plus MAX_N_DIGITS_UINT64 digits. */
  const AuxBufferSize: nat := 1 + 20

  /** One build of the formatter.
      - longBits: the width of `long int` on the target (32 or 64);
      - withLongLong: FEATURE_64BIT, which enables `ll` and makes LONGEST_INT
        `long long int` (64 bits), otherwise LONGEST_INT is `long int`;
      - withShort: FEATURE_SHORT, which enables `h`;
      - withChar: FEATURE_CHAR, which enables `c`, and `hh` when withShort is on too;
      - dividerExp: MAX_DIVIDER is 10 to this power. */
  datatype Config = Config(longBits: nat, withLongLong: bool, withShort: bool, withChar: bool, dividerExp: nat)
  {
    /** Width of LONGEST_INT (printf.c:37-46). */
    function LongestBits(): nat
    {
      if withLongLong then 64 else longBits
    }

    /** MAX_DIVIDER (printf.c:39, printf.c:42). */
    function MaxDivider(): nat
    {
      Pow(10, dividerExp)
    }

    /** A build the source can be compiled as: `long` is 32 or 64 bits wide,
        and MAX_DIVIDER is a power of ten that LONGEST_INT can hold. */
    predicate Valid()
    {
      && (longBits == 32 || longBits == 64)
      && dividerExp <= 18
      && MaxDivider() < Pow(2, LongestBits() - 1)
    }
  }

  /** The build with FEATURE_32BIT alone: MAX_DIVIDER_UINT32 is 10^9 (printf.c:25). */
  function Build32(longBits: nat, withShort: bool, withChar: bool): (c: Config)
    requires longBits == 32 || longBits == 64
    ensures c.Valid() && !c.withLongLong && c.MaxDivider() == 1000000000
  {
    PowValues();
    PowMonotone(2, 31, longBits - 1);
    Config(longBits, false, withShort, withChar, 9)
  }

  /** The build with FEATURE_64BIT: MAX_DIVIDER_UINT64 is also 10^9 (printf.c:28). */
  function Build64(longBits: nat, withShort: bool, withChar: bool): (c: Config)
    requires longBits == 32 || longBits == 64
    ensures c.Valid() && c.withLongLong && c.LongestBits() == 64 && c.MaxDivider() == 1000000000
  {
    PowValues();
    Config(longBits, true, withShort, withChar, 9)
  }
}
