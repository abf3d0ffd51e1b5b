/** Construction of a Classic codec from its options. */
module Codecs {
  import opened Outcomes
  import opened Arithmetic
  import opened Families
  import opened Fields
  import opened Vectors
  import opened Mds
  import opened Matrices
  import opened Builders
  import opened JerasureBuilder
  import opened JerasureForms

  datatype Error =
    | TooFewShards | TooManyShards
    | TooFewDataShards | TooManyDataShards
    | TooFewParityShards | TooManyParityShards
    | TooFewBufferShards | TooManyBufferShards
    | IncorrectShardSize | TooFewShardsPresent | EmptyShard
    | InvalidShardFlags | InvalidIndex | InvalidMatrix | UnsupportedFamily

  datatype Options = Options(family: Family, leopardMode: LeopardMode, fastOneParity: bool, mode: MatrixMode)

  /** An immutable Classic codec: its field, shard counts and effective encoding matrix. */
  datatype Codec<!E(!new)> = Codec(field: Field<E>, dataShards: nat, parityShards: nat, matrix: seq<seq<E>>, fastOneParity: bool) {
    function TotalShards(): nat { dataShards + parityShards }

    predicate FastOneParityEnabled() { fastOneParity && parityShards == 1 }

    ghost predicate Valid() {
      && field.Valid() && dataShards > 0 && parityShards > 0
      && IsMatrix(matrix, TotalShards(), dataShards)
      && Systematic(field, matrix, dataShards)
      && (FastOneParityEnabled() ==> matrix[dataShards] == Ones(field, dataShards))
    }

    ghost predicate Mds() { IsMds(field, matrix, TotalShards(), dataShards) }

    /** The coefficient rows of the parity shards. */
    function ParityRows(): seq<seq<E>>
      requires dataShards <= |matrix|
    {
      matrix[dataShards..]
    }
  }

  /** Whether `build_matrix_with_options` takes its single-parity shortcut. */
  predicate SingleParityFormat(options: Options, k: nat, p: nat) {
    options.fastOneParity && p == 1 && !options.mode.CustomMode?
  }

  /** The matrix each format stands for; every one of these descriptions fits a single matrix. */
  ghost predicate EffectiveMatrix<E(!new)>(f: Field<E>, k: nat, n: nat, options: Options, m: seq<seq<E>>) {
    && 0 < k < n && IsMatrix(m, n, k)
    && if SingleParityFormat(options, k, n - k) then m == OneParityMatrix(f, k)
       else match options.mode
         case VandermondeMode => VandermondeCode(f, m, n, k)
         case CauchyMode => m == CauchyMatrix(f, n, k)
         case JerasureLikeMode => JerasureShape(f, m, n, k) && (InteriorNonZero(f, n) ==> JerasureCode(f, m, n, k))
         case CustomMode => false
  }

  method BuildMatrixWithOptions<E(==, !new)>(f: Field<E>, k: nat, n: nat, options: Options, byteRows: bool, reuseWorkspace: bool)
    returns (r: Result<Matrix<E>, BuildError>)
    requires f.Valid() && 0 < k < n <= f.order
    ensures r.Ok? ==> r.value.Valid() && r.value.field == f && r.value.rowCount == n && r.value.colCount == k
    ensures r.Ok? ==> Systematic(f, r.value.Rows(), k)
    ensures r.Ok? ==> EffectiveMatrix(f, k, n, options, r.value.Rows())
    ensures !options.family.Classic? ==> r == Err(UnsupportedCodecFamily)
    ensures options.family.Classic? && r.Err? ==> r.error == InvalidCustomMatrix
    ensures options.family.Classic? && options.mode.CustomMode? ==> r.Err?
    ensures r.Ok? && IsMds(f, r.value.Rows(), n, k) <==> YieldsMds(f, k, n, options)
  {
    if options.family != Classic {
      return Err(UnsupportedCodecFamily);
    }
    if options.fastOneParity && n == k + 1 && options.mode != CustomMode {
      var m := BuildOneParityMatrix(f, k);
      return Ok(m);
    }
    match options.mode {
      case VandermondeMode =>
        r := BuildMatrix(f, k, n, byteRows, reuseWorkspace);
      case CauchyMode =>
        r := BuildCauchyMatrix(f, k, n);
      case JerasureLikeMode =>
        r := BuildJerasureLikeMatrix(f, k, n);
        if r.Ok? {
          SystematicFromShape(f, r.value.Rows(), n, k);
        }
      case CustomMode =>
        r := Err(InvalidCustomMatrix);
    }
  }

  lemma SystematicFromShape<E(!new)>(f: Field<E>, m: seq<seq<E>>, n: nat, k: nat)
    requires JerasureShape(f, m, n, k)
    ensures Systematic(f, m, k)
  {
  }

  /** Exactly when the built-in formats are MDS. */
  ghost predicate YieldsMds<E(!new)>(f: Field<E>, k: nat, n: nat, options: Options) {
    && k < n && options.family.Classic?
    && !options.mode.CustomMode?
    && (options.mode.JerasureLikeMode? && !SingleParityFormat(options, k, n - k) ==> k == 1 || InteriorNonZero(f, n))
  }

  /** What `with_options` constructs: a codec that this project models, or a Leopard codec without a matrix. */
  datatype Construction<!E(!new)> = ClassicCodec(codec: Codec<E>) | LeopardCodec(family: Family, dataShards: nat, parityShards: nat)

  /** `ReedSolomon::with_options`.  An explicit family and a field without byte kernels settle the family;
      otherwise the mode does. */
  method WithOptions<E(==, !new)>(f: Field<E>, platform: Platform, dataShards: nat, parityShards: nat, options: Options,
                                  byteRows: bool, reuseWorkspace: bool)
    returns (r: Result<Construction<E>, Error>, ghost family: Family)
    requires f.Valid() && f.order <= USIZE_MAX
    ensures options.family != Classic || !platform.byteField || options.leopardMode == Disabled ==> family == options.family
    ensures options.family == Classic && platform.byteField && options.leopardMode == AsNeeded ==>
      family == if dataShards + parityShards <= 256 then Classic else LeopardGF16
    ensures options.family == Classic && platform.byteField && options.leopardMode == PreferGF16 ==> family == LeopardGF16
    ensures options.family == Classic && platform.byteField && options.leopardMode == PreferLeopard ==>
      family == if dataShards + parityShards <= 256 && parityShards <= 128 then LeopardGF8 else LeopardGF16
    ensures dataShards == 0 ==> r == Err(TooFewDataShards)
    ensures dataShards > 0 && parityShards == 0 ==> r == Err(TooFewParityShards)
    ensures dataShards > 0 && parityShards > 0 && family == Classic ==>
      if dataShards + parityShards > f.order then r == Err(TooManyShards)
      else if r.Ok? then r.value.ClassicCodec? else r.error == InvalidMatrix
    ensures dataShards > 0 && parityShards > 0 && family == LeopardGF8 ==>
      r == if dataShards + parityShards <= 256 && !platform.byteField then Err(UnsupportedFamily)
           else if dataShards + NextPowerOfTwo(parityShards) <= 256 then Ok(LeopardCodec(LeopardGF8, dataShards, parityShards))
           else Err(TooManyShards)
    ensures dataShards > 0 && parityShards > 0 && family == LeopardGF16 ==>
      r == if dataShards + parityShards <= 65536 && !(platform.byteField && platform.littleEndian) then Err(UnsupportedFamily)
           else if dataShards + NextPowerOfTwo(parityShards) <= 65536 then Ok(LeopardCodec(LeopardGF16, dataShards, parityShards))
           else Err(TooManyShards)
    ensures options.family == Classic && options.leopardMode == Disabled && r.Ok? ==> r.value.ClassicCodec?
    ensures r.Ok? && r.value.ClassicCodec? ==>
      var c := r.value.codec;
      && c.Valid() && c.field == f && c.dataShards == dataShards && c.parityShards == parityShards
      && c.fastOneParity == options.fastOneParity
    ensures r.Ok? && r.value.ClassicCodec? ==>
      var m, n := r.value.codec.matrix, dataShards + parityShards;
      if options.fastOneParity && parityShards == 1 then m == OneParityMatrix(f, dataShards)
      else match options.mode
        case VandermondeMode => VandermondeCode(f, m, n, dataShards)
        case CauchyMode => m == CauchyMatrix(f, n, dataShards)
        case JerasureLikeMode => JerasureShape(f, m, n, dataShards) && (InteriorNonZero(f, n) ==> JerasureCode(f, m, n, dataShards))
        case CustomMode => false
    ensures r.Ok? && r.value.ClassicCodec? && r.value.codec.Mds() <==>
      && family == Classic && dataShards > 0 && parityShards > 0 && dataShards + parityShards <= f.order
      && YieldsMds(f, dataShards, dataShards + parityShards, options.(family := Classic))
  {
    hide Field.Valid, InteriorNonZero, JerasureShape, JerasureCode, VandermondeCode, CauchyMatrix, OneParityMatrix, Systematic, Ones,
      ShardComboFits, NextPowerOfTwo, IsMds, IsPowerOfTwo;
    family := ResolveFamily(options.family, options.leopardMode, platform.byteField, dataShards + parityShards, parityShards);
    if dataShards == 0 {
      return Err(TooFewDataShards), family;
    }
    if parityShards == 0 {
      return Err(TooFewParityShards), family;
    }
    var total := dataShards + parityShards;
    var resolved := ResolveFamily(options.family, options.leopardMode, platform.byteField, total, parityShards);
    if total > USIZE_MAX || total > MaxTotalShards(resolved, f.order) {
      return Err(TooManyShards), family;
    }
    if resolved != Classic {
      CapacitiesArePowers();
      ComboFitsExactly(dataShards, parityShards, MaxTotalShards(resolved, f.order));
      if !Supported(resolved, platform) {
        return Err(UnsupportedFamily), family;
      }
      if !ShardComboFits(dataShards, parityShards, MaxTotalShards(resolved, f.order)) {
        return Err(TooManyShards), family;
      }
      return Ok(LeopardCodec(resolved, dataShards, parityShards)), family;
    }
    var classic := options.(family := Classic);
    var built := BuildMatrixWithOptions(f, dataShards, total, classic, byteRows, reuseWorkspace);
    if built.Err? {
      return Err(InvalidMatrix), family;
    }
    var rows := ReadRows(built.value);
    r := Ok(ClassicCodec(Codec(f, dataShards, parityShards, rows, options.fastOneParity)));
  }

  /** `ReedSolomon::with_custom_matrix`: always Classic. */
  method WithCustomMatrix<E(==, !new)>(f: Field<E>, dataShards: nat, parityShards: nat, custom: seq<seq<E>>, options: Options)
    returns (r: Result<Codec<E>, Error>)
    requires f.Valid() && f.order <= USIZE_MAX
    ensures dataShards == 0 ==> r == Err(TooFewDataShards)
    ensures dataShards > 0 && parityShards == 0 ==> r == Err(TooFewParityShards)
    ensures dataShards > 0 && parityShards > 0 && dataShards + parityShards > f.order ==> r == Err(TooManyShards)
    ensures dataShards > 0 && parityShards > 0 && dataShards + parityShards <= f.order && !options.family.Classic? ==>
      r == Err(UnsupportedFamily)
    ensures dataShards > 0 && parityShards > 0 && dataShards + parityShards <= f.order && options.family.Classic? ==>
      (r.Ok? <==> parityShards <= |custom| && (forall i :: 0 <= i < parityShards ==> dataShards <= |custom[i]|)
                  && (options.fastOneParity && parityShards == 1 ==> custom[0][..dataShards] == Ones(f, dataShards)))
      && (r.Err? ==> r.error == InvalidMatrix)
    ensures r.Ok? ==> r.value.Valid() && r.value.field == f && r.value.dataShards == dataShards && r.value.parityShards == parityShards
    ensures r.Ok? ==> r.value.fastOneParity == options.fastOneParity
    ensures r.Ok? ==> forall i :: dataShards <= i < r.value.TotalShards() ==> r.value.matrix[i] == custom[i - dataShards][..dataShards]
  {
    if dataShards == 0 {
      return Err(TooFewDataShards);
    }
    if parityShards == 0 {
      return Err(TooFewParityShards);
    }
    if dataShards + parityShards > USIZE_MAX {
      return Err(TooManyShards);
    }
    var total := dataShards + parityShards;
    if total > f.order {
      return Err(TooManyShards);
    }
    if options.family != Classic {
      return Err(UnsupportedFamily);
    }
    var built := BuildCustomMatrix(f, dataShards, total, custom);
    if built.Err? {
      return Err(InvalidMatrix);
    }
    var rows := ReadRows(built.value);
    if options.fastOneParity && parityShards == 1 {
      assert rows[dataShards] == custom[0][..dataShards];
      var i := 0;
      while i < dataShards
        invariant i <= dataShards
        invariant forall j :: 0 <= j < i ==> rows[dataShards][j] == f.one
      {
        if rows[dataShards][i] != f.one {
          assert Ones(f, dataShards)[i] == f.one;
          return Err(InvalidMatrix);
        }
        i := i + 1;
      }
      assert rows[dataShards] == Ones(f, dataShards);
    }
    r := Ok(Codec(f, dataShards, parityShards, rows, options.fastOneParity));
  }

  /** The rows of a finished matrix, which nothing mutates any more. */
  method ReadRows<E(==, !new)>(m: Matrix<E>) returns (rows: seq<seq<E>>)
    requires m.Valid()
    ensures rows == m.Rows()
  {
    rows := [];
    for r := 0 to m.rowCount
      invariant rows == m.Rows()[..r]
    {
      var row := m.GetRow(r);
      rows := rows + [row];
    }
  }
}
