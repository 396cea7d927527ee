/**
 * The plain records the conversions pass around: an RGB triple (built by
 * `Rgb` in conversion/rgb.js and in src/conversion/rgb.js) and an XYZ triple
 * (built by `Xyz` in src/conversion/xyz.mjs). Each constructor only stores
 * its three arguments.
 */
module Records {
  datatype Rgb = Rgb(r: real, g: real, b: real)

  datatype Xyz = Xyz(x: real, y: real, z: real)
}
