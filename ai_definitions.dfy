/** The computer players: five fixed profiles, the lookup by name, and the
    material heuristic every profile uses. */
module AIDefinitions {
  import opened Primitives
  import opened Board
  import opened GridObject

  /** Difficulty levels, numbered 1 (very easy) to 5 (very hard). */
  datatype Difficulty = VeryEasy | Easy | Medium | Hard | VeryHard

  function Level(d: Difficulty): (n: int)
    ensures 1 <= n <= 5
  {
    match d
    case VeryEasy => 1
    case Easy => 2
    case Medium => 3
    case Hard => 4
    case VeryHard => 5
  }

  /** A profile: how deep the search looks and how clear its judgement is, as
      a fraction (1.0 means the heuristic is used undisturbed). All profiles
      share the material heuristic `Material`. */
  datatype Config = Config(name: string, difficulty: Difficulty, maxSearchDepth: nat, clearThought: real)

  const Configs: seq<Config> := [
    Config("Very easy", VeryEasy, 2, 0.5),
    Config("Easy", Easy, 2, 0.8),
    Config("Medium", Medium, 4, 0.8),
    Config("Hard", Hard, 6, 1.0),
    Config("Very hard", VeryHard, 10, 1.0)
  ]

  /** The first profile of `cs` named `name`, if any. */
  function Find(cs: seq<Config>, name: string): (r: Option<Config>)
    ensures r.Some? ==> r.value in cs && r.value.name == name
    ensures r.None? <==> forall i :: 0 <= i < |cs| ==> cs[i].name != name
    ensures r.Some? ==> exists i :: 0 <= i < |cs| && cs[i] == r.value && forall j :: 0 <= j < i ==> cs[j].name != name
  {
    if cs == [] then None
    else if cs[0].name == name then Some(cs[0])
    else
      var r := Find(cs[1..], name);
      assert forall j :: 0 <= j < |cs[1..]| ==> cs[1..][j] == cs[j + 1];
      r
  }

  /** The profile called `name`; None for an unknown name, where `getByName`
      fails reading the configuration of an entry it did not find. */
  function GetByName(name: string): (r: Option<Config>)
    ensures r.Some? ==> r.value in Configs && r.value.name == name
    ensures r.None? <==> forall i :: 0 <= i < |Configs| ==> Configs[i].name != name
  {
    Find(Configs, name)
  }

  /** Among profiles with pairwise distinct names, each is found under its own name. */
  lemma FindOwnName(cs: seq<Config>, i: int)
    requires forall j, k :: 0 <= j < k < |cs| ==> cs[j].name != cs[k].name
    requires 0 <= i < |cs|
    ensures Find(cs, cs[i].name) == Some(cs[i])
  {
    var r := Find(cs, cs[i].name);
    var k :| 0 <= k < |cs| && cs[k] == r.value && forall j :: 0 <= j < k ==> cs[j].name != cs[i].name;
    assert k == i;
  }

  /** The five profiles, each found under its own name. */
  lemma ProfileTable()
    ensures GetByName("Very easy") == Some(Config("Very easy", VeryEasy, 2, 0.5))
    ensures GetByName("Easy") == Some(Config("Easy", Easy, 2, 0.8))
    ensures GetByName("Medium") == Some(Config("Medium", Medium, 4, 0.8))
    ensures GetByName("Hard") == Some(Config("Hard", Hard, 6, 1.0))
    ensures GetByName("Very hard") == Some(Config("Very hard", VeryHard, 10, 1.0))
  {
    forall j, k | 0 <= j < k < |Configs|
      ensures Configs[j].name != Configs[k].name
    {
      NamesDistinct(j, k);
    }
    FindOwnName(Configs, 0);
    FindOwnName(Configs, 1);
    FindOwnName(Configs, 2);
    FindOwnName(Configs, 3);
    FindOwnName(Configs, 4);
  }

  lemma NamesDistinct(j: int, k: int)
    requires 0 <= j < k < |Configs|
    ensures Configs[j].name != Configs[k].name
  {
    var a, b := Configs[j].name, Configs[k].name;
    if |a| == |b| {
      if j == 1 {
        assert a[0] != b[0];
      } else {
        assert a[5] != b[5];
      }
    }
  }

  /** The profiles are ordered by difficulty and look at least as deep as
      easier ones. */
  lemma ProfilesOrdered(i: int, j: int)
    requires 0 <= i < j < |Configs|
    ensures Level(Configs[i].difficulty) < Level(Configs[j].difficulty)
    ensures Configs[i].maxSearchDepth <= Configs[j].maxSearchDepth
    ensures Configs[i].clearThought <= Configs[j].clearThought
  {
  }

  /** Every profile's judgement lies between half clear and fully clear. */
  lemma ClearThoughtRange(i: int)
    requires 0 <= i < |Configs|
    ensures 0.5 <= Configs[i].clearThought <= 1.0
  {
  }

  // ---------------------------------------------------------------------------
  // The clear-thought noise

  /** How far the noise may move a score's factor away from 1. */
  function Amplitude(clearThought: real): real
  {
    1.0 - clearThought
  }

  /** A draw `r` of the random number generator, in [0, 1), spread to [-1, 1). */
  function Swing(r: real): real
  {
    r * 2.0 - 1.0
  }

  /** The factor a leaf score is multiplied by, for a draw `r`:
      1 + (1 - clearThought) * (2r - 1). */
  function Factor(clearThought: real, r: real): real
  {
    1.0 + Amplitude(clearThought) * Swing(r)
  }

  /** For a draw in [0, 1) the factor lies in [clearThought, 2 - clearThought),
      so the noise scales a score by at most 1 - clearThought either way; the
      factor is exactly 1 for every draw if and only if the judgement is fully
      clear. */
  lemma FactorBounds(clearThought: real, r: real)
    requires 0.0 <= clearThought <= 1.0 && 0.0 <= r < 1.0
    ensures clearThought <= Factor(clearThought, r) <= 2.0 - clearThought
    ensures clearThought < 1.0 ==> Factor(clearThought, r) < 2.0 - clearThought
    ensures clearThought == 1.0 <==> forall d :: Factor(clearThought, d) == 1.0
  {
    ScaleBounds(Amplitude(clearThought), Swing(r));
    assert Factor(clearThought, r) == 1.0 + Amplitude(clearThought) * Swing(r);
    assert Factor(clearThought, r) <= 1.0 + Amplitude(clearThought);
    if clearThought == 1.0 {
      forall d
        ensures Factor(clearThought, d) == 1.0
      {
        assert Amplitude(clearThought) == 0.0;
      }
    } else {
      assert Factor(clearThought, 1.0) == 2.0 - clearThought;
    }
  }

  lemma ScaleBounds(e: real, t: real)
    requires e >= 0.0 && -1.0 <= t < 1.0
    ensures -e <= e * t <= e
    ensures e > 0.0 ==> e * t < e
  {
    assert e * (t + 1.0) >= 0.0;
    assert e * (1.0 - t) >= 0.0;
    if e > 0.0 {
      assert e * (1.0 - t) > 0.0;
    }
  }

  /** Scaling commutes with negating the score. */
  lemma ScaleNegated(m: int, f: real)
    ensures ((-m) as real) * f == -((m as real) * f)
  {
  }

  // ---------------------------------------------------------------------------
  // The material heuristic

  /** The value of one cell for `c`: a man counts 1, a king 2, positive for the
      pieces of `c` and negative for the opponent's. */
  function CellScore(v: Option<Piece>, c: Color): (r: int)
    ensures r == 0 <==> v.None?
    ensures v.Some? ==> (r > 0 <==> v.value.color == c)
    ensures v.Some? ==> (r == 2 || r == -2 <==> v.value.king)
  {
    match v
    case None => 0
    case Some(p) => (if p.color == c then 1 else -1) * (if p.king then 2 else 1)
  }

  /** The material balance of the cells `s` for `c`, summed in cell order. */
  function Material(s: seq<Option<Piece>>, c: Color): int
  {
    if s == [] then 0 else Material(s[..|s| - 1], c) + CellScore(s[|s| - 1], c)
  }

  /** The heuristic of every profile: the material balance of the board for `c`. */
  method Heuristic(g: Grid, c: Color) returns (score: int)
    requires g.Valid()
    ensures score == Material(g.Data(), c)
  {
    ghost var b := g.Data();
    score := 0;
    for i := 0 to 64
      invariant score == Material(b[..i], c)
    {
      assert b[..i + 1][..i] == b[..i];
      var p := g.cells[i];
      if p != None {
        score := score + (if p.value.color == c then 1 else -1) * (if p.value.king then 2 else 1);
      }
    }
    assert b[..64] == b;
  }

  /** The pieces of colour `c` on the cells `s`, counted with weight 1 for a man
      and 2 for a king. */
  function Worth(s: seq<Option<Piece>>, c: Color): (w: nat)
  {
    if s == [] then 0
    else
      var v := s[|s| - 1];
      Worth(s[..|s| - 1], c) + (if v.Some? && v.value.color == c then (if v.value.king then 2 else 1) else 0)
  }

  /** The heuristic is a zero-sum score: what one player gains the other loses. */
  lemma {:induction false} MaterialAntisymmetric(s: seq<Option<Piece>>, c: Color)
    ensures Material(s, Opposite(c)) == -Material(s, c)
  {
    if s != [] {
      MaterialAntisymmetric(s[..|s| - 1], c);
    }
  }

  /** The heuristic is the weighted piece count of `c` minus that of the
      opponent. */
  lemma {:induction false} MaterialIsWorthDifference(s: seq<Option<Piece>>, c: Color)
    ensures Material(s, c) == Worth(s, c) - Worth(s, Opposite(c))
  {
    if s != [] {
      MaterialIsWorthDifference(s[..|s| - 1], c);
    }
  }

  /** Each cell moves the score by at most 2 either way. */
  lemma {:induction false} MaterialBounded(s: seq<Option<Piece>>, c: Color)
    ensures -2 * |s| <= Material(s, c) <= 2 * |s|
  {
    if s != [] {
      MaterialBounded(s[..|s| - 1], c);
    }
  }
}
