/** The immutable tables of the game (constants.ts). */
module Constants {
  import opened Types

  /** The preset for each difficulty. Being a total function, it has exactly one
      entry per `Difficulty`; every preset leaves at least `mines` cells outside
      any 3 × 3 safe zone, which is what mine placement needs to finish. */
  function DifficultyConfig(d: Difficulty): (s: DifficultySettings)
    ensures 0 < s.rows && 0 < s.cols
    ensures s.mines + 9 <= s.rows * s.cols
  {
    match d
    case Beginner => DifficultySettings(9, 9, 10)
    case Intermediate => DifficultySettings(16, 16, 40)
    case Expert => DifficultySettings(16, 30, 99)
  }

  /** Text style for a revealed safe cell, indexed by its neighbour count; a cell
      with no mine around it shows no number, hence the empty entry 0. */
  const NumberColors: seq<string> := [
    "",
    "text-cyan-400 drop-shadow-[0_0_8px_rgba(34,211,238,0.8)]",
    "text-emerald-400 drop-shadow-[0_0_8px_rgba(52,211,153,0.8)]",
    "text-rose-400 drop-shadow-[0_0_8px_rgba(251,113,133,0.8)]",
    "text-indigo-400 drop-shadow-[0_0_8px_rgba(129,140,248,0.8)]",
    "text-amber-400 drop-shadow-[0_0_8px_rgba(251,191,36,0.8)]",
    "text-pink-400 drop-shadow-[0_0_8px_rgba(244,114,182,0.8)]",
    "text-teal-400 drop-shadow-[0_0_8px_rgba(45,212,191,0.8)]",
    "text-white drop-shadow-[0_0_8px_rgba(255,255,255,0.8)]"
  ]

  /** The style for a neighbour count; every count from 0 to 8 has one, and only
      the count 0 has none that shows. */
  function NumberColor(count: nat): (style: string)
    requires count <= 8
    ensures style == "" <==> count == 0
  {
    NumberColors[count]
  }
}
