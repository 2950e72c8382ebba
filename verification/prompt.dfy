/** The shared vocabulary of both front ends: the seven-field prompt record,
    its keys, partial records, the workflow states. */
module Prompt {
  import opened Results

  /** The seven fixed keys, in the order the source enumerates them. */
  datatype Key = Subject | Environment | Atmosphere | MicroDetails | TechSpecs | ColorGrading | Composition

  const AllKeys: seq<Key> := [Subject, Environment, Atmosphere, MicroDetails, TechSpecs, ColorGrading, Composition]

  /** The JSON property name of a key. */
  function Name(k: Key): string {
    match k
    case Subject => "subject"
    case Environment => "environment"
    case Atmosphere => "atmosphere"
    case MicroDetails => "microDetails"
    case TechSpecs => "techSpecs"
    case ColorGrading => "colorGrading"
    case Composition => "composition"
  }

  /** Position of a key in the fixed enumeration order. */
  function Rank(k: Key): (n: nat)
    ensures n < |AllKeys| && AllKeys[n] == k
  {
    match k
    case Subject => 0
    case Environment => 1
    case Atmosphere => 2
    case MicroDetails => 3
    case TechSpecs => 4
    case ColorGrading => 5
    case Composition => 6
  }

  /** `PromptStructure`: every field is always a string, possibly empty. */
  datatype PromptStructure = PromptStructure(
    subject: string,
    environment: string,
    atmosphere: string,
    microDetails: string,
    techSpecs: string,
    colorGrading: string,
    composition: string)

  function Get(p: PromptStructure, k: Key): string {
    match k
    case Subject => p.subject
    case Environment => p.environment
    case Atmosphere => p.atmosphere
    case MicroDetails => p.microDetails
    case TechSpecs => p.techSpecs
    case ColorGrading => p.colorGrading
    case Composition => p.composition
  }

  /** Two records are equal as soon as they agree on every key. */
  lemma RecordsEqual(p: PromptStructure, q: PromptStructure)
    requires forall k :: Get(p, k) == Get(q, k)
    ensures p == q
  {
    assert Get(p, Subject) == Get(q, Subject);
    assert Get(p, Environment) == Get(q, Environment);
    assert Get(p, Atmosphere) == Get(q, Atmosphere);
    assert Get(p, MicroDetails) == Get(q, MicroDetails);
    assert Get(p, TechSpecs) == Get(q, TechSpecs);
    assert Get(p, ColorGrading) == Get(q, ColorGrading);
    assert Get(p, Composition) == Get(q, Composition);
  }

  /** `DEFAULT_PROMPT`: all seven fields empty. */
  const Empty: PromptStructure := PromptStructure("", "", "", "", "", "", "")

  /** `Partial<PromptStructure>`: the fields discovered so far. */
  type Partial = map<Key, string>

  /** `{ ...prev, ...partial }`: the fields present in `partial` win. */
  function Merge(prev: PromptStructure, partial: Partial): (r: PromptStructure)
    ensures forall k :: Get(r, k) == if k in partial then partial[k] else Get(prev, k)
  {
    PromptStructure(
      if Subject in partial then partial[Subject] else prev.subject,
      if Environment in partial then partial[Environment] else prev.environment,
      if Atmosphere in partial then partial[Atmosphere] else prev.atmosphere,
      if MicroDetails in partial then partial[MicroDetails] else prev.microDetails,
      if TechSpecs in partial then partial[TechSpecs] else prev.techSpecs,
      if ColorGrading in partial then partial[ColorGrading] else prev.colorGrading,
      if Composition in partial then partial[Composition] else prev.composition)
  }

  /** Merging two partial updates one after the other is merging their union,
      the later one winning: the order of delivery is all that matters. */
  lemma MergeTwice(prev: PromptStructure, a: Partial, b: Partial)
    ensures Merge(Merge(prev, a), b) == Merge(prev, a + b)
  {
    RecordsEqual(Merge(Merge(prev, a), b), Merge(prev, a + b));
  }

  /** Every announced partial record merged in turn. */
  function MergeAll(p: PromptStructure, updates: seq<Partial>): PromptStructure {
    if |updates| == 0 then p else Merge(MergeAll(p, updates[..|updates| - 1]), updates[|updates| - 1])
  }

  /** When every announcement holds at least the keys of the one before — as the
      announcements of a stream do — merging them all is merging the last one. */
  lemma {:induction false} MergeAllSnapshots(p: PromptStructure, updates: seq<Partial>)
    requires |updates| > 0
    requires forall i :: 0 < i < |updates| ==> updates[i - 1].Keys <= updates[i].Keys
    ensures MergeAll(p, updates) == Merge(p, updates[|updates| - 1])
  {
    if |updates| > 1 {
      var init := updates[..|updates| - 1];
      MergeAllSnapshots(p, init);
      MergeTwice(p, init[|init| - 1], updates[|updates| - 1]);
      assert init[|init| - 1] + updates[|updates| - 1] == updates[|updates| - 1];
    }
  }

  /** What an expansion delivered: the partial records announced, in order, and
      the final record or the error it ended with. */
  datatype Expansion = Expansion(updates: seq<Partial>, result: Result<PromptStructure>)

  /** The states of the generation workflow (`AppState`). */
  datatype AppState = Idle | ExpandingPrompt | GeneratingImage | Complete | Error

  /** A request is in flight. */
  predicate Busy(s: AppState) {
    s == ExpandingPrompt || s == GeneratingImage
  }
}
