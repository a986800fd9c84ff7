/** The server's point and rectangle values, with int coordinates. */
module Geometry {

  datatype Point2D = Point2D(x: int, y: int)

  datatype Point3D = Point3D(x: int, y: int, z: int)

  datatype Rectangle2D = Rectangle2D(start: Point2D, end: Point2D)

  datatype Rectangle3D = Rectangle3D(start: Point3D, end: Point3D)
}
