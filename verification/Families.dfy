/** The codec families: which one a construction gets, and what the Leopard families can hold. */
module Families {
  import opened Arithmetic

  datatype Family = Classic | LeopardGF8 | LeopardGF16

  datatype LeopardMode = Disabled | AsNeeded | PreferGF16 | PreferLeopard

  const LEOPARD_GF8_MAX_SHARDS: nat := 256
  const LEOPARD_GF16_MAX_SHARDS: nat := 65536
  const LEOPARD_GF8_MAX_PARITY: nat := 128

  /** The platform and field facts that the Leopard families ask for. */
  datatype Platform = Platform(byteField: bool, littleEndian: bool)

  function ResolveFamily(requested: Family, mode: LeopardMode, byteField: bool, total: nat, parity: nat): Family {
    if requested != Classic || !byteField then requested
    else match mode
      case Disabled => Classic
      case AsNeeded => if total <= LEOPARD_GF8_MAX_SHARDS then Classic else LeopardGF16
      case PreferGF16 => LeopardGF16
      case PreferLeopard =>
        if total <= LEOPARD_GF8_MAX_SHARDS && parity <= LEOPARD_GF8_MAX_PARITY then LeopardGF8 else LeopardGF16
  }

  function MaxTotalShards(family: Family, order: nat): nat {
    match family
    case Classic => order
    case LeopardGF8 => LEOPARD_GF8_MAX_SHARDS
    case LeopardGF16 => LEOPARD_GF16_MAX_SHARDS
  }

  predicate Supported(family: Family, platform: Platform) {
    family != Classic ==> platform.byteField && (family == LeopardGF16 ==> platform.littleEndian)
  }

  /** The layout check of a Leopard code: the data, in blocks of the rounded parity count, beside one more
      block.  Rounding fails when it leaves the machine range. */
  predicate ShardComboFits(data: nat, parity: nat, order: nat) {
    var m := NextPowerOfTwo(parity);
    && m <= USIZE_MAX && data > 0 && parity > 0 && m <= order
    && CeilDiv(data, m) * m <= USIZE_MAX
    && CeilDiv(data, m) * m <= order - m
  }

  /** The check in a form that a caller can evaluate: only the parity count is rounded up. */
  lemma ComboFitsExactly(data: nat, parity: nat, order: nat)
    requires data > 0 && parity > 0 && IsPowerOfTwo(order) && order <= USIZE_MAX
    ensures ShardComboFits(data, parity, order) <==> data + NextPowerOfTwo(parity) <= order
  {
    var m := NextPowerOfTwo(parity);
    if m <= order {
      NextPowerIsLeast(parity, if parity <= order then order else m);
      var q := PowersDivide(m, order);
      assert order - m == (q - 1) * m;
      if data <= order - m {
        CeilDivLeast(data, m, q - 1);
        MulMonotone(CeilDiv(data, m), q - 1, m);
      }
    }
  }

  lemma CapacitiesArePowers()
    ensures IsPowerOfTwo(LEOPARD_GF8_MAX_PARITY) && IsPowerOfTwo(LEOPARD_GF8_MAX_SHARDS) && IsPowerOfTwo(LEOPARD_GF16_MAX_SHARDS)
  {
    assert IsPowerOfTwo(128 / 32);
    assert IsPowerOfTwo(256 / 64);
    assert IsPowerOfTwo(65536 / 16384);
  }

  /** Whether the family can be built for these counts on this platform. */
  predicate Constructible(family: Family, platform: Platform, order: nat, data: nat, parity: nat) {
    && data > 0 && parity > 0 && data + parity <= MaxTotalShards(family, order)
    && Supported(family, platform)
    && (family != Classic ==> ShardComboFits(data, parity, MaxTotalShards(family, order)))
  }

  /** What the preference for Leopard costs.  Where GF(2^8) is chosen it is refused exactly when the data does
      not fit beside the rounded parity, and in all these cases GF(2^16) and Classic would have been accepted. */
  lemma PreferenceGap(data: nat, parity: nat, platform: Platform)
    requires data > 0 && parity > 0 && platform.byteField && platform.littleEndian
    requires ResolveFamily(Classic, PreferLeopard, true, data + parity, parity) == LeopardGF8
    ensures Constructible(LeopardGF8, platform, 256, data, parity) <==> data + NextPowerOfTwo(parity) <= LEOPARD_GF8_MAX_SHARDS
    ensures Constructible(LeopardGF16, platform, 256, data, parity) && Constructible(Classic, platform, 256, data, parity)
  {
    hide IsPowerOfTwo, NextPowerOfTwo, ShardComboFits;
    CapacitiesArePowers();
    ComboFitsExactly(data, parity, LEOPARD_GF8_MAX_SHARDS);
    ComboFitsExactly(data, parity, LEOPARD_GF16_MAX_SHARDS);
    NextPowerIsLeast(parity, LEOPARD_GF8_MAX_PARITY);
  }

  /** Beyond the parity ceiling no GF(2^8) codec can be constructed at all. */
  lemma ParityCeiling(data: nat, parity: nat, platform: Platform, order: nat)
    requires parity > LEOPARD_GF8_MAX_PARITY
    ensures !Constructible(LeopardGF8, platform, order, data, parity)
  {
    hide IsPowerOfTwo, NextPowerOfTwo, ShardComboFits;
    if Constructible(LeopardGF8, platform, order, data, parity) {
      CapacitiesArePowers();
      ComboFitsExactly(data, parity, LEOPARD_GF8_MAX_SHARDS);
      NextPowerIsLeast(parity, LEOPARD_GF8_MAX_SHARDS);
      var q := PowersDivide(NextPowerOfTwo(parity), LEOPARD_GF8_MAX_SHARDS);
      MulMonotone(2, q, NextPowerOfTwo(parity));
    }
  }

  /** The gap is not empty: 156 data and 100 parity shards. */
  lemma PreferenceGapExample(platform: Platform)
    requires platform.byteField && platform.littleEndian
    ensures ResolveFamily(Classic, PreferLeopard, true, 256, 100) == LeopardGF8
    ensures !Constructible(LeopardGF8, platform, 256, 156, 100) && Constructible(LeopardGF16, platform, 256, 156, 100)
  {
    PreferenceGap(156, 100, platform);
  }
}
