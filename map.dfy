/**
  The occupancy map the search reads: a width-by-height buffer of cell types
  stored row-major, plus the start and goal coordinates. Out-of-bounds accesses
  throw std::out_of_range; here the exception is a returned value.
*/
module Map {
  import opened Coords

  datatype CellType = Free | Obstacle | Start | Goal

  /** std::out_of_range with its message. */
  datatype Error = OutOfRange(message: string)

  /** The value a query returns, or the exception it throws instead. */
  datatype Result<T> = Ok(value: T) | Throws(error: Error)

  /** How a void operation ends: normally, or by throwing. */
  datatype Outcome = Done | Thrown(error: Error)

  /** A width-by-height map stores exactly width * height cells. */
  predicate WellSized(width: int, height: int, cells: int) {
    width >= 0 && height >= 0 && cells == width * height
  }

  /** The contents of a map at one moment. */
  datatype Grid = Grid(width: int, height: int, cells: seq<CellType>, start: Coord, goal: Coord) {

    predicate Valid() {
      WellSized(width, height, |cells|)
    }

    predicate InBounds(x: int, y: int) {
      InGrid(x, y, width, height)
    }

    /** The type of cell (x, y). */
    function At(x: int, y: int): CellType
      requires Valid() && InBounds(x, y)
    {
      EncodeInRange(x, y, width, height);
      cells[Encode(x, y, width)]
    }

    /** The search may step onto c: it is in bounds and not an obstacle (START and GOAL cells are traversable). */
    predicate Passable(c: Coord)
      requires Valid()
    {
      InBounds(c.0, c.1) && At(c.0, c.1) != Obstacle
    }
  }

  type ValidGrid = g: Grid | g.Valid() witness Grid(0, 0, [], (0, 0), (0, 0))

  class GridMap {
    const width: int
    const height: int
    /** Cell (x, y) is at index y * width + x. */
    const grid: array<CellType>
    var start: Coord
    var goal: Coord

    ghost predicate Valid()
      reads this
    {
      WellSized(width, height, grid.Length)
    }

    /** The map's current contents as a value. */
    ghost function Snapshot(): ValidGrid
      reads this, grid
      requires Valid()
    {
      Grid(width, height, grid[..], start, goal)
    }

    /** A width-by-height map of FREE cells whose start and goal are both unset, (-1, -1). */
    constructor (width: int, height: int)
      requires width >= 0 && height >= 0
      ensures Valid() && fresh(grid)
      ensures Snapshot() == Grid(width, height, seq(width * height, _ => Free), (-1, -1), (-1, -1))
    {
      this.width := width;
      this.height := height;
      grid := new CellType[width * height](_ => Free);
      start := (-1, -1);
      goal := (-1, -1);
      new;
      assert grid[..] == seq(width * height, _ => Free);
    }

    function GetWidth(): (w: int)
      reads this
      requires Valid()
      ensures w >= 0 && w * height == grid.Length
    {
      width
    }

    function GetHeight(): (h: int)
      reads this
      requires Valid()
      ensures h >= 0 && width * h == grid.Length
    {
      height
    }

    /** (x, y) lies inside the map; its flat index then addresses a slot of the buffer. */
    predicate InBounds(x: int, y: int): (r: bool)
      reads this
      ensures r && Valid() ==> 0 <= Encode(x, y, width) < grid.Length
    {
      if InGrid(x, y, width, height) then EncodeInRange(x, y, width, height); true else false
    }

    /** The type of cell (x, y), or out_of_range when (x, y) is outside the map. */
    function GetCell(x: int, y: int): (r: Result<CellType>)
      reads this, grid
      requires Valid()
      ensures r.Ok? <==> 0 <= x < width && 0 <= y < height
      ensures r.Ok? ==> r.value == Snapshot().At(x, y)
      ensures r.Throws? ==> r.error == OutOfRange("Coordinates out of bounds")
    {
      if !InBounds(x, y) then
        Throws(OutOfRange("Coordinates out of bounds"))
      else
        EncodeInRange(x, y, width, height);
        Ok(grid[Encode(x, y, width)])
    }

    /** Stores t at (x, y); out of bounds, throws and changes nothing. */
    method SetCell(x: int, y: int, t: CellType) returns (r: Outcome)
      requires Valid()
      modifies grid
      ensures Valid()
      ensures r == if InBounds(x, y) then Done else Thrown(OutOfRange("Coordinates out of bounds"))
      ensures r.Done? ==> GetCell(x, y) == Ok(t)
      ensures forall x', y' | (x', y') != (x, y) :: GetCell(x', y') == old(GetCell(x', y'))
      ensures r.Thrown? ==> grid[..] == old(grid[..])
    {
      if !InBounds(x, y) {
        return Thrown(OutOfRange("Coordinates out of bounds"));
      }
      EncodeInRange(x, y, width, height);
      grid[Encode(x, y, width)] := t;
      forall x', y' | (x', y') != (x, y)
        ensures GetCell(x', y') == old(GetCell(x', y'))
      {
        if InBounds(x', y') {
          EncodeInjective(x, y, x', y', width);
          EncodeInRange(x', y', width, height);
        }
      }
      r := Done;
    }

    /** Records (x, y) as the start and stamps the cell START; an earlier START cell keeps its type. */
    method SetStart(x: int, y: int) returns (r: Outcome)
      requires Valid()
      modifies this, grid
      ensures Valid()
      ensures r == if InBounds(x, y) then Done else Thrown(OutOfRange("Start out of bounds"))
      ensures GetStart() == (if r.Done? then (x, y) else old(GetStart()))
      ensures GetGoal() == old(GetGoal())
      ensures r.Done? ==> GetCell(x, y) == Ok(Start)
      ensures forall x', y' | (x', y') != (x, y) :: GetCell(x', y') == old(GetCell(x', y'))
      ensures r.Thrown? ==> grid[..] == old(grid[..])
    {
      if !InBounds(x, y) {
        return Thrown(OutOfRange("Start out of bounds"));
      }
      start := (x, y);
      var stamped := SetCell(x, y, Start);
      assert stamped == Done;
      r := Done;
    }

    /** Records (x, y) as the goal and stamps the cell GOAL; an earlier GOAL cell keeps its type. */
    method SetGoal(x: int, y: int) returns (r: Outcome)
      requires Valid()
      modifies this, grid
      ensures Valid()
      ensures r == if InBounds(x, y) then Done else Thrown(OutOfRange("Goal out of bounds"))
      ensures GetGoal() == (if r.Done? then (x, y) else old(GetGoal()))
      ensures GetStart() == old(GetStart())
      ensures r.Done? ==> GetCell(x, y) == Ok(Goal)
      ensures forall x', y' | (x', y') != (x, y) :: GetCell(x', y') == old(GetCell(x', y'))
      ensures r.Thrown? ==> grid[..] == old(grid[..])
    {
      if !InBounds(x, y) {
        return Thrown(OutOfRange("Goal out of bounds"));
      }
      goal := (x, y);
      var stamped := SetCell(x, y, Goal);
      assert stamped == Done;
      r := Done;
    }

    function GetStart(): Coord
      reads this
    {
      start
    }

    function GetGoal(): Coord
      reads this
    {
      goal
    }
  }
}
