/**
 * The scene constants: the cells' top-left corners run over [-DIMENSION,
 * DIMENSION] in steps of SQUARE_WIDTH, so the cells cover
 * [-DIMENSION, DIMENSION + SQUARE_WIDTH] x [-DIMENSION - SQUARE_WIDTH, DIMENSION].
 */
module Config {
  const Dimension: int := 100
  const SquareWidth: int := 2
}
