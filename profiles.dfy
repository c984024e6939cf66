/** The rows the two serverless handlers read from the profile store, and
    the fixed set of psychological constructs the questions are tagged with. */
module Profiles {
  import opened Wrappers

  type UserId = string
  type QuestionId = string

  /** The seven constructs, each with a weight column on the profile. */
  datatype Construct =
    | Sensory | Playfulness | Embodiment | Nostalgia | Autonomy | Transcendence | Temporal

  /** The order in which the question selector visits the constructs: the key
      order of the `weights` object literal. */
  const Constructs: seq<Construct> :=
    [Sensory, Playfulness, Embodiment, Nostalgia, Autonomy, Transcendence, Temporal]

  /** A weight as onboarding stores it: `answer / 5`. The model keeps the
      integer numerator `level`, so the weight is `level / 5` exactly. */
  datatype Weights = Weights(
    sensory: int, playfulness: int, embodiment: int, nostalgia: int,
    autonomy: int, transcendence: int, temporal: int)

  function Level(w: Weights, c: Construct): (level: int)
  {
    match c
    case Sensory => w.sensory
    case Playfulness => w.playfulness
    case Embodiment => w.embodiment
    case Nostalgia => w.nostalgia
    case Autonomy => w.autonomy
    case Transcendence => w.transcendence
    case Temporal => w.temporal
  }

  /** A profile row: the partner link, the weights and the ids the user has
      flagged out of bounds (a null column reads as the empty list). */
  datatype Profile = Profile(partnerId: Option<UserId>, weights: Weights, outOfBounds: seq<QuestionId>)

  /** JavaScript truthiness of a string field that may be missing:
      `undefined`, `null` and `""` are all falsy. */
  predicate Present(s: Option<string>)
  {
    s.Some? && s.value != ""
  }

  /** A store lookup by primary key (`.eq('id', id).single()`); `None` stands
      for the `null` data of a missing row. */
  function Lookup(profiles: map<UserId, Profile>, id: UserId): (p: Option<Profile>)
    ensures p.Some? <==> id in profiles
    ensures p.Some? ==> p.value == profiles[id]
  {
    if id in profiles then Some(profiles[id]) else None
  }
}
