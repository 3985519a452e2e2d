/** The benchmark harness hooks shared by the three MLPerf Tiny ports:
    `th_load_tensor` copies the host's input bytes into the model's input
    tensor, and `th_results` prints the output scores as one
    `m-results-[…]` line. */
module Benchmark {
  import opened Common

  /** The benchmark models a port is built for (`TH_MODEL_VERSION`). */
  datatype ModelVersion = IC01 | KWS01 | VWW01 | AD01 | STRWW01

  /** The element type of the model's input tensor. */
  datatype TensorType = Int8 | UInt8 | Unsupported

  /** The image-classification and visual-wake-word models take int8 input
      produced by shifting every host byte down by 128; the others take the
      host bytes as they are. */
  predicate ShiftsInput(m: ModelVersion) {
    m == IC01 || m == VWW01
  }

  // ---------------------------------------------------------------------
  // th_load_tensor
  // ---------------------------------------------------------------------

  /** The tensor element stored for host byte `b`: int8 tensors of the
      shifting models get `(int8_t)((int16_t)b - 128)`, other int8 tensors
      get the byte's bit pattern (`memcpy`), uint8 tensors get the byte. */
  function LoadedValue(m: ModelVersion, kind: TensorType, b: int): (v: int)
    requires IsByte(b) && kind != Unsupported
    ensures kind == Int8 ==> IsInt8(v)
    ensures kind == UInt8 ==> IsByte(v)
  {
    if kind == UInt8 then b
    else if ShiftsInput(m) then ToInt8(b - 128)
    else AsInt8(b)
  }

  /** What the harness logs while loading. */
  datatype LoadLog = SizeMismatch(hostSize: nat, tensorSize: nat) | UnknownType

  /** `th_load_tensor`: `host` is the static host buffer after
      `ee_get_buffer` reported `hostSize` bytes, and `tensor0` the input
      tensor before the call, whose length is the tensor's byte count. A
      size mismatch is only logged: the copy still covers the whole
      tensor. An input type other than int8 and uint8 leaves the tensor as
      it was. */
  method LoadTensor(m: ModelVersion, kind: TensorType, hostSize: nat, host: seq<int>, tensor0: seq<int>)
    returns (tensor: seq<int>, log: seq<LoadLog>)
    requires AllBytes(host) && |tensor0| <= |host|
    ensures |tensor| == |tensor0|
    ensures SizeMismatch(hostSize, |tensor0|) in log <==> hostSize != |tensor0|
    ensures UnknownType in log <==> kind == Unsupported
    ensures kind == Unsupported ==> tensor == tensor0
    ensures kind == UInt8 ==> tensor == host[..|tensor0|]
    ensures kind == Int8 && ShiftsInput(m) ==> forall i :: 0 <= i < |tensor| ==> tensor[i] == host[i] - 128
    ensures kind == Int8 && !ShiftsInput(m) ==> forall i :: 0 <= i < |tensor| ==> IsInt8(tensor[i]) && ToByte(tensor[i]) == host[i]
    ensures kind != Unsupported ==> forall i :: 0 <= i < |tensor| ==> tensor[i] == LoadedValue(m, kind, host[i])
  {
    log := if hostSize != |tensor0| then [SizeMismatch(hostSize, |tensor0|)] else [];
    if kind == Unsupported {
      tensor := tensor0;
      log := log + [UnknownType];
      return;
    }
    tensor := [];
    var i := 0;
    while i < |tensor0|
      invariant 0 <= i <= |tensor0|
      invariant |tensor| == i
      invariant forall j :: 0 <= j < i ==> tensor[j] == LoadedValue(m, kind, host[j])
    {
      tensor := tensor + [LoadedValue(m, kind, host[i])];
      i := i + 1;
    }
  }

  /** Recovers the host byte from a tensor element: the inverse of the
      load. */
  function HostByte(m: ModelVersion, kind: TensorType, v: int): (b: int)
    requires kind != Unsupported
  {
    if kind == UInt8 then v
    else if ShiftsInput(m) then v + 128
    else ToByte(v)
  }

  /** Loading loses nothing: every host byte is recovered from the tensor
      element it became. */
  lemma LoadRoundTrip(m: ModelVersion, kind: TensorType, b: int)
    requires IsByte(b) && kind != Unsupported
    ensures HostByte(m, kind, LoadedValue(m, kind, b)) == b
  {
  }

  /** Every element of an int8 tensor, and every byte of a uint8 tensor, is
      the load of some host byte: the load is a bijection from bytes onto
      the tensor's element range. */
  lemma LoadOnto(m: ModelVersion, kind: TensorType, v: int)
    requires kind == Int8 ==> IsInt8(v)
    requires kind == UInt8 ==> IsByte(v)
    requires kind != Unsupported
    ensures IsByte(HostByte(m, kind, v))
    ensures LoadedValue(m, kind, HostByte(m, kind, v)) == v
  {
    if kind == Int8 && !ShiftsInput(m) {
      if v < 0 {
        assert ToByte(v) == v + 256;
      }
    }
  }

  // ---------------------------------------------------------------------
  // th_results
  // ---------------------------------------------------------------------

  const ResultsPrefix: string := "m-results-["
  const ResultsSuffix: string := "]\r\n"

  /** `values` separated by single commas. */
  function Join(values: seq<string>): string
    decreases |values|
  {
    if |values| == 0 then []
    else if |values| == 1 then values[0]
    else Join(values[..|values| - 1]) + "," + values[|values| - 1]
  }

  /** The line printed for the formatted scores `values`. */
  function ResultsLine(values: seq<string>): string {
    ResultsPrefix + Join(values) + ResultsSuffix
  }

  /** A formatted score holds no comma (`%f` prints digits, a sign and a
      point). */
  predicate CommaFree(values: seq<string>) {
    forall i :: 0 <= i < |values| ==> ',' !in values[i]
  }

  /** `th_results`: prints the prefix, each score followed by a comma
      unless it is the last one, and the suffix. The scores are the
      dequantised outputs, already formatted by `%f`. */
  method FormatResults(values: seq<string>) returns (line: string)
    ensures line == ResultsLine(values)
    ensures CommaFree(values) ==> Count(line, ',') == if |values| == 0 then 0 else |values| - 1
  {
    line := ResultsPrefix;
    var i := 0;
    while i < |values|
      invariant 0 <= i <= |values|
      invariant line == ResultsPrefix + Join(values[..i]) + (if 0 < i < |values| then "," else "")
    {
      ghost var before := line;
      line := line + values[i];
      JoinStep(values, i);
      assert line == ResultsPrefix + Join(values[..i + 1]) by {
        assert before + values[i] == ResultsPrefix + (Join(values[..i]) + (if 0 < i then "," else "") + values[i]);
      }
      if i < |values| - 1 {
        line := line + ",";
      }
      i := i + 1;
    }
    assert values[..|values|] == values;
    line := line + ResultsSuffix;
    if CommaFree(values) {
      ResultsCommas(values);
    }
  }

  /** Joining one more value: the text so far, the comma that separates it
      from the new value when there is text, and the value. */
  lemma JoinStep(values: seq<string>, i: int)
    requires 0 <= i < |values|
    ensures Join(values[..i]) + (if 0 < i then "," else "") + values[i] == Join(values[..i + 1])
  {
    JoinSnoc(values[..i], values[i]);
    assert values[..i + 1] == values[..i] + [values[i]];
  }

  /** Appending one value extends the joined text by a comma and the
      value. */
  lemma JoinSnoc(values: seq<string>, v: string)
    ensures Join(values + [v]) == if |values| == 0 then v else Join(values) + "," + v
  {
    var s := values + [v];
    assert s[..|s| - 1] == values;
  }

  /** The comma-free scores joined hold exactly one comma fewer than there
      are scores. */
  lemma {:induction false} JoinCommas(values: seq<string>)
    requires CommaFree(values)
    ensures Count(Join(values), ',') == if |values| == 0 then 0 else |values| - 1
    decreases |values|
  {
    if |values| == 1 {
      CountZero(values[0], ',');
    } else if |values| > 1 {
      var init := values[..|values| - 1];
      var last := values[|values| - 1];
      assert CommaFree(init) by {
        forall i | 0 <= i < |init|
          ensures ',' !in init[i]
        {
          assert init[i] == values[i];
        }
      }
      JoinCommas(init);
      CountAppend(Join(init) + ",", last, ',');
      CountAppend(Join(init), ",", ',');
      CountZero(last, ',');
    }
  }

  lemma ResultsCommas(values: seq<string>)
    requires CommaFree(values)
    ensures Count(ResultsLine(values), ',') == if |values| == 0 then 0 else |values| - 1
  {
    JoinCommas(values);
    CountAppend(ResultsPrefix + Join(values), ResultsSuffix, ',');
    CountAppend(ResultsPrefix, Join(values), ',');
    assert Count(ResultsPrefix, ',') == 0;
    assert Count(ResultsSuffix, ',') == 0;
  }

  /** The position of the last comma of `s`, if any. */
  function LastComma(s: string): (r: Option<nat>)
    ensures r.Some? ==> r.value < |s| && s[r.value] == ',' && ',' !in s[r.value + 1..]
    ensures r.None? ==> ',' !in s
    decreases |s|
  {
    if |s| == 0 then None
    else if s[|s| - 1] == ',' then Some(|s| - 1)
    else
      var r := LastComma(s[..|s| - 1]);
      assert s == s[..|s| - 1] + [s[|s| - 1]];
      if r.Some? then
        assert s[r.value + 1..] == s[..|s| - 1][r.value + 1..] + [s[|s| - 1]];
        r
      else r
  }

  /** Splits comma-separated text into its fields. */
  function Split(s: string): (fields: seq<string>)
    ensures |fields| >= 1
    decreases |s|
  {
    match LastComma(s)
    case None => [s]
    case Some(i) => Split(s[..i]) + [s[i + 1..]]
  }

  /** Reads a results line back into the formatted scores, as the host
      side of the benchmark does; `None` when the framing is wrong. */
  function ParseResults(line: string): Option<seq<string>> {
    if |line| < |ResultsPrefix| + |ResultsSuffix|
      || line[..|ResultsPrefix|] != ResultsPrefix
      || line[|line| - |ResultsSuffix|..] != ResultsSuffix
    then None
    else
      var inner := line[|ResultsPrefix|..|line| - |ResultsSuffix|];
      if |inner| == 0 then Some([]) else Some(Split(inner))
  }

  /** Comma-free fields are recovered from their join. */
  lemma {:induction false} SplitJoin(values: seq<string>)
    requires |values| >= 1 && CommaFree(values)
    ensures Split(Join(values)) == values
    decreases |values|
  {
    if |values| == 1 {
      assert LastComma(values[0]) == None;
    } else {
      var init := values[..|values| - 1];
      var last := values[|values| - 1];
      var s := Join(values);
      assert s == Join(init) + "," + last;
      assert CommaFree(init) by {
        forall i | 0 <= i < |init|
          ensures ',' !in init[i]
        {
          assert init[i] == values[i];
        }
      }
      var k := |Join(init)|;
      assert s[k] == ',';
      assert s[k + 1..] == last;
      assert LastComma(s) == Some(k) by {
        LastCommaAt(s, k);
      }
      assert s[..k] == Join(init);
      SplitJoin(init);
      assert init + [last] == values;
    }
  }

  /** A comma followed by comma-free text is the last comma. */
  lemma LastCommaAt(s: string, k: nat)
    requires k < |s| && s[k] == ',' && ',' !in s[k + 1..]
    ensures LastComma(s) == Some(k)
    decreases |s|
  {
    if k < |s| - 1 {
      assert s[|s| - 1] == s[k + 1..][|s| - 2 - k];
      var t := s[..|s| - 1];
      assert t[k + 1..] == s[k + 1..|s| - 1];
      assert forall j :: k + 1 <= j < |t| ==> t[j] == s[k + 1..][j - k - 1];
      LastCommaAt(t, k);
    }
  }

  /** The printed line is read back as exactly the printed scores, when
      each score is non-empty and comma-free. */
  lemma ResultsRoundTrip(values: seq<string>)
    requires CommaFree(values)
    requires forall i :: 0 <= i < |values| ==> |values[i]| > 0
    ensures ParseResults(ResultsLine(values)) == Some(values)
  {
    var line := ResultsLine(values);
    var j := Join(values);
    assert line[..|ResultsPrefix|] == ResultsPrefix;
    assert line[|line| - |ResultsSuffix|..] == ResultsSuffix;
    assert line[|ResultsPrefix|..|line| - |ResultsSuffix|] == j;
    if |values| > 0 {
      JoinNonEmpty(values);
      SplitJoin(values);
    }
  }

  lemma JoinNonEmpty(values: seq<string>)
    requires |values| > 0 && |values[|values| - 1]| > 0
    ensures |Join(values)| > 0
  {
  }
}
