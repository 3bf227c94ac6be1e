/** Classrooms: the nodes of the campus graph (aueb_pathfinding/classes.py, class Classroom). */
module Rooms {
  import opened Options

  /** A classroom is an immutable record; the constructor's type checks become Dafny types. */
  datatype Classroom = Classroom(name: string, x: int, y: int, floor: int)

  /** Python's str.isspace for a single character (the Unicode White_Space characters it accepts). */
  predicate IsSpace(c: char) {
    var k := c as int;
    (9 <= k <= 13) || (28 <= k <= 32) || k == 0x85 || k == 0xA0 || k == 0x1680
    || (0x2000 <= k <= 0x200A) || k == 0x2028 || k == 0x2029 || k == 0x202F
    || k == 0x205F || k == 0x3000
  }

  /** A name made of whitespace only (the empty name included). */
  predicate IsBlank(s: string) {
    forall i :: 0 <= i < |s| ==> IsSpace(s[i])
  }

  /** str.lstrip(): drop leading whitespace. */
  function LStrip(s: string): (r: string)
    ensures |r| <= |s| && r == s[|s| - |r|..]
    ensures r != [] ==> !IsSpace(r[0])
    ensures forall i :: 0 <= i < |s| - |r| ==> IsSpace(s[i])
  {
    if s != [] && IsSpace(s[0]) then LStrip(s[1..]) else s
  }

  /** str.rstrip(): drop trailing whitespace. */
  function RStrip(s: string): (r: string)
    ensures |r| <= |s| && r == s[..|r|]
    ensures r != [] ==> !IsSpace(r[|r| - 1])
    ensures forall i :: |r| <= i < |s| ==> IsSpace(s[i])
  {
    if s != [] && IsSpace(s[|s| - 1]) then RStrip(s[..|s| - 1]) else s
  }

  /** str.strip(). */
  function Strip(s: string): string {
    RStrip(LStrip(s))
  }

  /** name.strip() == "" holds exactly for the blank names. */
  lemma {:induction false} StripEmptyIffBlank(s: string)
    ensures Strip(s) == [] <==> IsBlank(s)
  {
    var l := LStrip(s);
    if Strip(s) == [] {
      assert l == [];
    } else {
      var r := Strip(s);
      assert r[0] == l[0];
      assert s[|s| - |l|] == l[0];
    }
  }

  /** Classroom(name, x, y, floor): rejects a blank name, otherwise keeps the fields as given. */
  function MakeClassroom(name: string, x: int, y: int, floor: int): (r: Result<Classroom, string>)
    ensures r.Failure? <==> IsBlank(name)
    ensures r.Success? ==> r.value.name == name && r.value.x == x && r.value.y == y && r.value.floor == floor
  {
    StripEmptyIffBlank(name);
    if Strip(name) == [] then Failure("Classroom name must be a non-empty string.")
    else Success(Classroom(name, x, y, floor))
  }

  /** Classroom.__eq__: two classrooms are the same room exactly when their names agree. */
  predicate SameRoom(a: Classroom, b: Classroom) {
    a.name == b.name
  }

  /** __eq__ is an equivalence relation that ignores the coordinates and the floor. */
  lemma SameRoomIsEquivalence(a: Classroom, b: Classroom, c: Classroom)
    ensures SameRoom(a, a)
    ensures SameRoom(a, b) ==> SameRoom(b, a)
    ensures SameRoom(a, b) && SameRoom(b, c) ==> SameRoom(a, c)
    ensures SameRoom(a, Classroom(a.name, b.x, b.y, b.floor))
  {
  }

  /** Classroom.__hash__ as written: it hashes (name, floor). */
  function HashKey(c: Classroom): (string, int) {
    (c.name, c.floor)
  }

  /** As written, two rooms equal under __eq__ can have different hash keys. */
  lemma EqualRoomsCanHashApart()
    ensures var a, b := Classroom("A21", 0, 0, 1), Classroom("A21", 0, 0, 2);
            SameRoom(a, b) && HashKey(a) != HashKey(b)
  {
  }

  /** The identity key the rest of the model uses: the name alone, consistent with __eq__. */
  function Key(c: Classroom): string {
    c.name
  }

  /** Key agrees with __eq__ in both directions, as a dictionary key must. */
  lemma KeyAgreesWithEquality(a: Classroom, b: Classroom)
    ensures SameRoom(a, b) <==> Key(a) == Key(b)
  {
  }

  /** The set of names of a node list. */
  function NameSet(nodes: seq<Classroom>): set<string> {
    set i | 0 <= i < |nodes| :: nodes[i].name
  }
}
