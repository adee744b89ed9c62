/**
 * The scene: an ordered list of spheres and an ordered list of point lights,
 * both grown at the end by scene set-up. A sphere is referred to elsewhere by
 * its position in `objects`.
 */
module Worlds {
  import opened Tuples
  import opened Colors
  import opened Matrices

  /** A sphere, reduced to the object-to-world transformation that the ray test inverts. */
  datatype Sphere = Sphere(transformation: Matrix)

  /** `PointLight { position, intensity }`. */
  datatype PointLight = PointLight(position: Tuple, intensity: Color)

  class World {
    var objects: seq<Sphere>
    var lights: seq<PointLight>

    /** `World::new`: no objects and no lights. */
    constructor ()
      ensures objects == [] && lights == []
    {
      objects := [];
      lights := [];
    }

    /** `world.objects.push(sphere)`: the new sphere goes last; earlier ones keep their places. */
    method AddObject(s: Sphere)
      modifies this
      ensures objects == old(objects) + [s]
      ensures lights == old(lights)
    {
      objects := objects + [s];
    }

    /** `world.lights.push(light)`: the new light goes last; earlier ones keep their places. */
    method AddLight(l: PointLight)
      modifies this
      ensures lights == old(lights) + [l]
      ensures objects == old(objects)
    {
      lights := lights + [l];
    }
  }

  /**
   * Scene set-up as the source does it: objects pushed one after another end
   * up in the order they were pushed, each at the index it had when pushed.
   */
  method SceneOrder(a: Sphere, b: Sphere, l: PointLight) returns (objects: seq<Sphere>, lights: seq<PointLight>)
    ensures objects == [a, b] && lights == [l]
  {
    var world := new World();
    assert |world.objects| == 0 && |world.lights| == 0;
    world.AddLight(l);
    world.AddObject(a);
    world.AddObject(b);
    objects, lights := world.objects, world.lights;
  }
}
