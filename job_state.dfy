/** The packed progress word a MapReduce job keeps in one 64-bit atomic
    (Ex3/MapReduceFramework.cpp). Bits 62-63 hold the stage, bits 31-61
    the number of units in the stage ("total") and bits 0-30 the number of
    units already done ("progress"). The word is modelled as a natural
    number below 2^64; shifts and masks become products, quotients and
    remainders by powers of two. */
module JobState {
  import opened Arith

  const StageShift: nat := 62
  const TotalShift: nat := 31
  /** PROGRESS_MASK + 1: each counter field holds values below 2^31. */
  const FieldLimit: nat := 0x8000_0000
  /** 1 << STAGE_SHIFT */
  const StageUnit: nat := 0x4000_0000_0000_0000
  const WordLimit: nat := 0x1_0000_0000_0000_0000

  /** The values of stage_t. */
  const UndefinedStage: nat := 0
  const MapStage: nat := 1
  const ShuffleStage: nat := 2
  const ReduceStage: nat := 3

  type Word = w: nat | w < WordLimit

  datatype Fields = Fields(stage: nat, total: nat, progress: nat)

  /** The job state as getJobState reports it: the stage and the
      percentage, a real number instead of a float. */
  datatype View = View(stage: nat, percentage: real)

  ghost predicate InRange(f: Fields) {
    f.stage < 4 && f.total < FieldLimit && f.progress < FieldLimit
  }

  /** stage << 62 | total << 31 | progress, for fields that fit. */
  function Encode(f: Fields): (w: Word)
    requires InRange(f)
    ensures w / FieldLimit == f.stage * FieldLimit + f.total
    ensures w % FieldLimit == f.progress
  {
    var upper := f.stage * FieldLimit + f.total;
    DivModUnique(upper * FieldLimit + f.progress, FieldLimit, upper, f.progress);
    f.stage * StageUnit + f.total * FieldLimit + f.progress
  }

  /** The three shifts and masks of getJobState. */
  function Decode(w: Word): (f: Fields)
    ensures InRange(f)
  {
    var s := w / StageUnit;
    DivDiv(w, FieldLimit, FieldLimit);
    Fields(s, (w / FieldLimit) % FieldLimit, w % FieldLimit)
  }

  /** The word becomes the three fields again. */
  lemma DecodeEncode(f: Fields)
    requires InRange(f)
    ensures Decode(Encode(f)) == f
  {
    var w := Encode(f);
    var upper := w / FieldLimit;
    DivDiv(w, FieldLimit, FieldLimit);
    DivModUnique(upper, FieldLimit, f.stage, f.total);
  }

  /** Every word is the encoding of its decoded fields. */
  lemma EncodeDecode(w: Word)
    ensures Encode(Decode(w)) == w
  {
    var f := Decode(w);
    DivDiv(w, FieldLimit, FieldLimit);
    assert w == (w / FieldLimit) * FieldLimit + w % FieldLimit;
    assert w / FieldLimit == (w / StageUnit) * FieldLimit + (w / FieldLimit) % FieldLimit;
  }

  /** `(long)inputVec.size() << 31`, the word a job starts with. */
  function InitialWord(inputSize: nat): Word {
    (inputSize * FieldLimit) % WordLimit
  }

  lemma InitialWordFields(inputSize: nat)
    requires inputSize < FieldLimit
    ensures Decode(InitialWord(inputSize)) == Fields(UndefinedStage, inputSize, 0)
  {
    DecodeEncode(Fields(UndefinedStage, inputSize, 0));
  }

  /** `stateCounter++`: an atomic fetch-and-add, which wraps at 2^64. */
  function Increment(w: Word): Word {
    if w + 1 == WordLimit then 0 else w + 1
  }

  /** An increment raises the progress field by one and leaves stage and
      total alone, as long as progress is below its field's maximum. */
  lemma IncrementFields(w: Word)
    requires Decode(w).progress < FieldLimit - 1
    ensures Decode(Increment(w)) == Decode(w).(progress := Decode(w).progress + 1)
  {
    var f := Decode(w);
    EncodeDecode(w);
    var g := f.(progress := f.progress + 1);
    assert Encode(g) == w + 1;
    DecodeEncode(g);
  }

  /** n increments in a row. */
  function IncrementBy(w: Word, n: nat): Word {
    if n == 0 then w else Increment(IncrementBy(w, n - 1))
  }

  lemma {:induction false} IncrementByFields(w: Word, n: nat)
    requires Decode(w).progress + n < FieldLimit
    ensures Decode(IncrementBy(w, n)) == Decode(w).(progress := Decode(w).progress + n)
  {
    if n > 0 {
      IncrementByFields(w, n - 1);
      IncrementFields(IncrementBy(w, n - 1));
    }
  }

  lemma {:induction false} IncrementByAdd(w: Word, a: nat, b: nat)
    ensures IncrementBy(IncrementBy(w, a), b) == IncrementBy(w, a + b)
  {
    if b > 0 {
      IncrementByAdd(w, a, b - 1);
    }
  }

  /** Bitwise or of two naturals. */
  function BitOr(a: nat, b: nat): (r: nat)
    ensures r >= a && r >= b
    decreases a + b
  {
    if a == 0 then b
    else if b == 0 then a
    else 2 * BitOr(a / 2, b / 2) + (if a % 2 == 1 || b % 2 == 1 then 1 else 0)
  }

  lemma {:induction false} BitOrSelf(a: nat)
    ensures BitOr(a, a) == a
  {
    if a != 0 {
      BitOrSelf(a / 2);
    }
  }

  lemma {:induction false} BitOrIdempotent(a: nat, b: nat)
    ensures BitOr(BitOr(a, b), b) == BitOr(a, b)
    decreases a + b
  {
    if a == 0 {
      BitOrSelf(b);
    } else if b != 0 {
      var r := BitOr(a, b);
      BitOrIdempotent(a / 2, b / 2);
      assert r / 2 == BitOr(a / 2, b / 2) && r % 2 == (if a % 2 == 1 || b % 2 == 1 then 1 else 0);
    }
  }

  lemma {:induction false} BitOrSmall(a: nat, b: nat, n: nat)
    requires a < Pow2(n) && b < Pow2(n)
    ensures BitOr(a, b) < Pow2(n)
    decreases a + b
  {
    if a != 0 && b != 0 {
      BitOrSmall(a / 2, b / 2, n - 1);
    }
  }

  /** `stateCounter |= (stage << 62)`: or the stage bits in. The low 62
      bits are untouched. */
  function OrStage(w: Word, stage: nat): (r: Word)
    requires stage < 4
  {
    var high := BitOr(w / StageUnit, stage);
    BitOrSmall(w / StageUnit, stage, 2);
    w % StageUnit + high * StageUnit
  }

  /** Or-ing a stage in sets the stage bits to the or of old and new stage
      and leaves total and progress as they were; on a word still in the
      undefined stage it sets exactly the new stage. */
  lemma OrStageFields(w: Word, stage: nat)
    requires stage < 4
    ensures Decode(OrStage(w, stage)) == Decode(w).(stage := BitOr(Decode(w).stage, stage))
    ensures Decode(w).stage == UndefinedStage ==> Decode(OrStage(w, stage)).stage == stage
  {
    var f := Decode(w);
    var g := f.(stage := BitOr(f.stage, stage));
    BitOrSmall(f.stage, stage, 2);
    EncodeDecode(w);
    assert w % StageUnit == f.total * FieldLimit + f.progress;
    assert Encode(g) == OrStage(w, stage);
    DecodeEncode(g);
  }

  /** Every worker or-s MAP_STAGE in; the second and later do nothing. */
  lemma OrStageIdempotent(w: Word, stage: nat)
    requires stage < 4
    ensures OrStage(OrStage(w, stage), stage) == OrStage(w, stage)
  {
    var w' := OrStage(w, stage);
    OrStageFields(w, stage);
    OrStageFields(w', stage);
    BitOrIdempotent(Decode(w).stage, stage);
    EncodeDecode(w);
    EncodeDecode(w');
    EncodeDecode(OrStage(w', stage));
  }

  /** getJobState: the stage, and progress as a percentage of total, or 0
      when total is 0. */
  function GetJobState(w: Word): (v: View)
    ensures v.stage == Decode(w).stage
    ensures Decode(w).total == 0 ==> v.percentage == 0.0
    ensures Decode(w).total != 0 ==>
      v.percentage * (Decode(w).total as real) == 100.0 * (Decode(w).progress as real)
  {
    var f := Decode(w);
    if f.total != 0 then
      View(f.stage, (f.progress as real / f.total as real) * 100.0)
    else
      View(f.stage, 0.0)
  }

  /** The percentage is within [0, 100] whenever progress has not passed total. */
  lemma PercentageBounds(w: Word)
    requires Decode(w).progress <= Decode(w).total
    ensures 0.0 <= GetJobState(w).percentage <= 100.0
  {
    var f := Decode(w);
    if f.total != 0 {
      var p, t := f.progress as real, f.total as real;
      assert p / t <= 1.0 by {
        assert p <= t;
      }
    }
  }

  /** The word stored when a stage starts: `total << 31 | stage << 62`
      with total a 64-bit value (lines 266-267). */
  function StageStart(stage: nat, total: nat): Word
    requires stage < 4
  {
    OrStage(InitialWord(total), stage)
  }

  lemma StageStartFields(stage: nat, total: nat)
    requires stage < 4 && total < FieldLimit
    ensures Decode(StageStart(stage, total)) == Fields(stage, total, 0)
  {
    InitialWordFields(total);
    OrStageFields(InitialWord(total), stage);
  }

  /** The word after the map stage over n inputs: the initial word, the
      map stage or-ed in and one increment per input. */
  function MapEnd(n: nat): Word {
    IncrementBy(OrStage(InitialWord(n), MapStage), n)
  }

  /** After the map stage the word reports the map stage with all n inputs
      done, and a later worker or-ing the map stage in again leaves it as it is. */
  lemma MapEndFields(n: nat)
    requires n < FieldLimit
    ensures Decode(MapEnd(n)) == Fields(MapStage, n, n)
    ensures OrStage(MapEnd(n), MapStage) == MapEnd(n)
  {
    InitialWordFields(n);
    OrStageFields(InitialWord(n), MapStage);
    IncrementByFields(OrStage(InitialWord(n), MapStage), n);
    var w := MapEnd(n);
    OrStageFields(w, MapStage);
    BitOrSelf(MapStage);
    EncodeDecode(w);
    EncodeDecode(OrStage(w, MapStage));
  }

  /** After the reduce stage starts with n groups and all n are reduced,
      the word reports the reduce stage with progress equal to total. */
  lemma ReduceEndsComplete(n: nat)
    requires n < FieldLimit
    ensures Decode(IncrementBy(StageStart(ReduceStage, n), n)) == Fields(ReduceStage, n, n)
  {
    StageStartFields(ReduceStage, n);
    IncrementByFields(StageStart(ReduceStage, n), n);
  }

  // Line 263 shifts the 32-bit int `intermediateCounter->load()` by 31
  // before widening it. The shifted value keeps only its low 32 bits, and
  // widening the signed result to uint64 copies its sign bit into the
  // upper 32 bits.

  const Int32Limit: nat := 0x1_0000_0000

  /** The 32-bit pattern of `count << 31`. */
  function ShiftInInt32(count: nat): (bits: nat)
    ensures bits < Int32Limit
  {
    (count * FieldLimit) % Int32Limit
  }

  /** Conversion of a signed 32-bit pattern to uint64. */
  function WidenSigned(bits: nat): Word
    requires bits < Int32Limit
  {
    if bits >= FieldLimit then bits + (WordLimit - Int32Limit) else bits
  }

  /** The shuffle-start word as line 263 computes it. */
  function ShuffleStartAsWritten(count: nat): Word {
    OrStage(WidenSigned(ShiftInInt32(count)), ShuffleStage)
  }

  /** Counterexamples: with 2 intermediate pairs the word reports total 0
      (the percentage stays 0 throughout the shuffle), and with 3 it
      reports the reduce stage and a total of 2^31 - 1. */
  lemma ShuffleStartAsWrittenIsWrong()
    ensures Decode(ShuffleStartAsWritten(2)) == Fields(ShuffleStage, 0, 0)
    ensures Decode(ShuffleStartAsWritten(3)) == Fields(ReduceStage, FieldLimit - 1, 0)
  {
    assert ShiftInInt32(2) == 0;
    assert WidenSigned(0) == 0;
    OrStageFields(0, ShuffleStage);
    assert Decode(0) == Fields(0, 0, 0);
    assert ShiftInInt32(3) == FieldLimit;
    var w := WidenSigned(FieldLimit);
    assert w == 0xFFFF_FFFF_8000_0000;
    OrStageFields(w, ShuffleStage);
    assert Decode(w) == Fields(3, FieldLimit - 1, 0);
    assert BitOr(3, 2) == 3 by {
      assert BitOr(1, 1) == 1;
    }
  }

  /** The intended shuffle-start word: the counter widened to 64 bits
      before the shift. It reports the shuffle stage, the number of
      intermediate pairs as total and no progress. */
  function ShuffleStart(count: nat): (w: Word)
    requires count < FieldLimit
    ensures Decode(w) == Fields(ShuffleStage, count, 0)
  {
    StageStartFields(ShuffleStage, count);
    StageStart(ShuffleStage, count)
  }

  /** Along the shuffle the word counts one unit per moved pair: starting
      from the shuffle-start word, moving all `count` pairs leaves progress
      equal to total. */
  lemma ShuffleEndsComplete(count: nat)
    requires count < FieldLimit
    ensures Decode(IncrementBy(ShuffleStart(count), count)) == Fields(ShuffleStage, count, count)
  {
    IncrementByFields(ShuffleStart(count), count);
  }
}
