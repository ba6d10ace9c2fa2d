/** The two constant tables of the decoder's field GF(2^8), generator polynomial x^8 + x^4 + x^3 + x^2 + 1.
    A table is written as a decision tree over its index, so that the solver evaluates a cell in a dozen tests. */
module GfTables {

  // gf256_exp
  function ExpTable(i: int): bv8
    requires 0 <= i < 256
  {
    if i < 128 then
      if i < 64 then
        if i < 32 then
          if i < 16 then
            if i < 8 then
              if i == 0 then 0x01 else if i == 1 then 0x02 else if i == 2 then 0x04 else if i == 3 then 0x08 else if i == 4 then 0x10 else if i == 5 then 0x20 else if i == 6 then 0x40 else 0x80
            else
              if i == 8 then 0x1d else if i == 9 then 0x3a else if i == 10 then 0x74 else if i == 11 then 0xe8 else if i == 12 then 0xcd else if i == 13 then 0x87 else if i == 14 then 0x13 else 0x26
          else
            if i < 24 then
              if i == 16 then 0x4c else if i == 17 then 0x98 else if i == 18 then 0x2d else if i == 19 then 0x5a else if i == 20 then 0xb4 else if i == 21 then 0x75 else if i == 22 then 0xea else 0xc9
            else
              if i == 24 then 0x8f else if i == 25 then 0x03 else if i == 26 then 0x06 else if i == 27 then 0x0c else if i == 28 then 0x18 else if i == 29 then 0x30 else if i == 30 then 0x60 else 0xc0
        else
          if i < 48 then
            if i < 40 then
              if i == 32 then 0x9d else if i == 33 then 0x27 else if i == 34 then 0x4e else if i == 35 then 0x9c else if i == 36 then 0x25 else if i == 37 then 0x4a else if i == 38 then 0x94 else 0x35
            else
              if i == 40 then 0x6a else if i == 41 then 0xd4 else if i == 42 then 0xb5 else if i == 43 then 0x77 else if i == 44 then 0xee else if i == 45 then 0xc1 else if i == 46 then 0x9f else 0x23
          else
            if i < 56 then
              if i == 48 then 0x46 else if i == 49 then 0x8c else if i == 50 then 0x05 else if i == 51 then 0x0a else if i == 52 then 0x14 else if i == 53 then 0x28 else if i == 54 then 0x50 else 0xa0
            else
              if i == 56 then 0x5d else if i == 57 then 0xba else if i == 58 then 0x69 else if i == 59 then 0xd2 else if i == 60 then 0xb9 else if i == 61 then 0x6f else if i == 62 then 0xde else 0xa1
      else
        if i < 96 then
          if i < 80 then
            if i < 72 then
              if i == 64 then 0x5f else if i == 65 then 0xbe else if i == 66 then 0x61 else if i == 67 then 0xc2 else if i == 68 then 0x99 else if i == 69 then 0x2f else if i == 70 then 0x5e else 0xbc
            else
              if i == 72 then 0x65 else if i == 73 then 0xca else if i == 74 then 0x89 else if i == 75 then 0x0f else if i == 76 then 0x1e else if i == 77 then 0x3c else if i == 78 then 0x78 else 0xf0
          else
            if i < 88 then
              if i == 80 then 0xfd else if i == 81 then 0xe7 else if i == 82 then 0xd3 else if i == 83 then 0xbb else if i == 84 then 0x6b else if i == 85 then 0xd6 else if i == 86 then 0xb1 else 0x7f
            else
              if i == 88 then 0xfe else if i == 89 then 0xe1 else if i == 90 then 0xdf else if i == 91 then 0xa3 else if i == 92 then 0x5b else if i == 93 then 0xb6 else if i == 94 then 0x71 else 0xe2
        else
          if i < 112 then
            if i < 104 then
              if i == 96 then 0xd9 else if i == 97 then 0xaf else if i == 98 then 0x43 else if i == 99 then 0x86 else if i == 100 then 0x11 else if i == 101 then 0x22 else if i == 102 then 0x44 else 0x88
            else
              if i == 104 then 0x0d else if i == 105 then 0x1a else if i == 106 then 0x34 else if i == 107 then 0x68 else if i == 108 then 0xd0 else if i == 109 then 0xbd else if i == 110 then 0x67 else 0xce
          else
            if i < 120 then
              if i == 112 then 0x81 else if i == 113 then 0x1f else if i == 114 then 0x3e else if i == 115 then 0x7c else if i == 116 then 0xf8 else if i == 117 then 0xed else if i == 118 then 0xc7 else 0x93
            else
              if i == 120 then 0x3b else if i == 121 then 0x76 else if i == 122 then 0xec else if i == 123 then 0xc5 else if i == 124 then 0x97 else if i == 125 then 0x33 else if i == 126 then 0x66 else 0xcc
    else
      if i < 192 then
        if i < 160 then
          if i < 144 then
            if i < 136 then
              if i == 128 then 0x85 else if i == 129 then 0x17 else if i == 130 then 0x2e else if i == 131 then 0x5c else if i == 132 then 0xb8 else if i == 133 then 0x6d else if i == 134 then 0xda else 0xa9
            else
              if i == 136 then 0x4f else if i == 137 then 0x9e else if i == 138 then 0x21 else if i == 139 then 0x42 else if i == 140 then 0x84 else if i == 141 then 0x15 else if i == 142 then 0x2a else 0x54
          else
            if i < 152 then
              if i == 144 then 0xa8 else if i == 145 then 0x4d else if i == 146 then 0x9a else if i == 147 then 0x29 else if i == 148 then 0x52 else if i == 149 then 0xa4 else if i == 150 then 0x55 else 0xaa
            else
              if i == 152 then 0x49 else if i == 153 then 0x92 else if i == 154 then 0x39 else if i == 155 then 0x72 else if i == 156 then 0xe4 else if i == 157 then 0xd5 else if i == 158 then 0xb7 else 0x73
        else
          if i < 176 then
            if i < 168 then
              if i == 160 then 0xe6 else if i == 161 then 0xd1 else if i == 162 then 0xbf else if i == 163 then 0x63 else if i == 164 then 0xc6 else if i == 165 then 0x91 else if i == 166 then 0x3f else 0x7e
            else
              if i == 168 then 0xfc else if i == 169 then 0xe5 else if i == 170 then 0xd7 else if i == 171 then 0xb3 else if i == 172 then 0x7b else if i == 173 then 0xf6 else if i == 174 then 0xf1 else 0xff
          else
            if i < 184 then
              if i == 176 then 0xe3 else if i == 177 then 0xdb else if i == 178 then 0xab else if i == 179 then 0x4b else if i == 180 then 0x96 else if i == 181 then 0x31 else if i == 182 then 0x62 else 0xc4
            else
              if i == 184 then 0x95 else if i == 185 then 0x37 else if i == 186 then 0x6e else if i == 187 then 0xdc else if i == 188 then 0xa5 else if i == 189 then 0x57 else if i == 190 then 0xae else 0x41
      else
        if i < 224 then
          if i < 208 then
            if i < 200 then
              if i == 192 then 0x82 else if i == 193 then 0x19 else if i == 194 then 0x32 else if i == 195 then 0x64 else if i == 196 then 0xc8 else if i == 197 then 0x8d else if i == 198 then 0x07 else 0x0e
            else
              if i == 200 then 0x1c else if i == 201 then 0x38 else if i == 202 then 0x70 else if i == 203 then 0xe0 else if i == 204 then 0xdd else if i == 205 then 0xa7 else if i == 206 then 0x53 else 0xa6
          else
            if i < 216 then
              if i == 208 then 0x51 else if i == 209 then 0xa2 else if i == 210 then 0x59 else if i == 211 then 0xb2 else if i == 212 then 0x79 else if i == 213 then 0xf2 else if i == 214 then 0xf9 else 0xef
            else
              if i == 216 then 0xc3 else if i == 217 then 0x9b else if i == 218 then 0x2b else if i == 219 then 0x56 else if i == 220 then 0xac else if i == 221 then 0x45 else if i == 222 then 0x8a else 0x09
        else
          if i < 240 then
            if i < 232 then
              if i == 224 then 0x12 else if i == 225 then 0x24 else if i == 226 then 0x48 else if i == 227 then 0x90 else if i == 228 then 0x3d else if i == 229 then 0x7a else if i == 230 then 0xf4 else 0xf5
            else
              if i == 232 then 0xf7 else if i == 233 then 0xf3 else if i == 234 then 0xfb else if i == 235 then 0xeb else if i == 236 then 0xcb else if i == 237 then 0x8b else if i == 238 then 0x0b else 0x16
          else
            if i < 248 then
              if i == 240 then 0x2c else if i == 241 then 0x58 else if i == 242 then 0xb0 else if i == 243 then 0x7d else if i == 244 then 0xfa else if i == 245 then 0xe9 else if i == 246 then 0xcf else 0x83
            else
              if i == 248 then 0x1b else if i == 249 then 0x36 else if i == 250 then 0x6c else if i == 251 then 0xd8 else if i == 252 then 0xad else if i == 253 then 0x47 else if i == 254 then 0x8e else 0x01
  }

  // gf256_log; cell 0 is never meaningful
  function LogTable(c: int): bv8
    requires 0 <= c < 256
  {
    if c < 128 then
      if c < 64 then
        if c < 32 then
          if c < 16 then
            if c < 8 then
              if c == 0 then 0x00 else if c == 1 then 0xff else if c == 2 then 0x01 else if c == 3 then 0x19 else if c == 4 then 0x02 else if c == 5 then 0x32 else if c == 6 then 0x1a else 0xc6
            else
              if c == 8 then 0x03 else if c == 9 then 0xdf else if c == 10 then 0x33 else if c == 11 then 0xee else if c == 12 then 0x1b else if c == 13 then 0x68 else if c == 14 then 0xc7 else 0x4b
          else
            if c < 24 then
              if c == 16 then 0x04 else if c == 17 then 0x64 else if c == 18 then 0xe0 else if c == 19 then 0x0e else if c == 20 then 0x34 else if c == 21 then 0x8d else if c == 22 then 0xef else 0x81
            else
              if c == 24 then 0x1c else if c == 25 then 0xc1 else if c == 26 then 0x69 else if c == 27 then 0xf8 else if c == 28 then 0xc8 else if c == 29 then 0x08 else if c == 30 then 0x4c else 0x71
        else
          if c < 48 then
            if c < 40 then
              if c == 32 then 0x05 else if c == 33 then 0x8a else if c == 34 then 0x65 else if c == 35 then 0x2f else if c == 36 then 0xe1 else if c == 37 then 0x24 else if c == 38 then 0x0f else 0x21
            else
              if c == 40 then 0x35 else if c == 41 then 0x93 else if c == 42 then 0x8e else if c == 43 then 0xda else if c == 44 then 0xf0 else if c == 45 then 0x12 else if c == 46 then 0x82 else 0x45
          else
            if c < 56 then
              if c == 48 then 0x1d else if c == 49 then 0xb5 else if c == 50 then 0xc2 else if c == 51 then 0x7d else if c == 52 then 0x6a else if c == 53 then 0x27 else if c == 54 then 0xf9 else 0xb9
            else
              if c == 56 then 0xc9 else if c == 57 then 0x9a else if c == 58 then 0x09 else if c == 59 then 0x78 else if c == 60 then 0x4d else if c == 61 then 0xe4 else if c == 62 then 0x72 else 0xa6
      else
        if c < 96 then
          if c < 80 then
            if c < 72 then
              if c == 64 then 0x06 else if c == 65 then 0xbf else if c == 66 then 0x8b else if c == 67 then 0x62 else if c == 68 then 0x66 else if c == 69 then 0xdd else if c == 70 then 0x30 else 0xfd
            else
              if c == 72 then 0xe2 else if c == 73 then 0x98 else if c == 74 then 0x25 else if c == 75 then 0xb3 else if c == 76 then 0x10 else if c == 77 then 0x91 else if c == 78 then 0x22 else 0x88
          else
            if c < 88 then
              if c == 80 then 0x36 else if c == 81 then 0xd0 else if c == 82 then 0x94 else if c == 83 then 0xce else if c == 84 then 0x8f else if c == 85 then 0x96 else if c == 86 then 0xdb else 0xbd
            else
              if c == 88 then 0xf1 else if c == 89 then 0xd2 else if c == 90 then 0x13 else if c == 91 then 0x5c else if c == 92 then 0x83 else if c == 93 then 0x38 else if c == 94 then 0x46 else 0x40
        else
          if c < 112 then
            if c < 104 then
              if c == 96 then 0x1e else if c == 97 then 0x42 else if c == 98 then 0xb6 else if c == 99 then 0xa3 else if c == 100 then 0xc3 else if c == 101 then 0x48 else if c == 102 then 0x7e else 0x6e
            else
              if c == 104 then 0x6b else if c == 105 then 0x3a else if c == 106 then 0x28 else if c == 107 then 0x54 else if c == 108 then 0xfa else if c == 109 then 0x85 else if c == 110 then 0xba else 0x3d
          else
            if c < 120 then
              if c == 112 then 0xca else if c == 113 then 0x5e else if c == 114 then 0x9b else if c == 115 then 0x9f else if c == 116 then 0x0a else if c == 117 then 0x15 else if c == 118 then 0x79 else 0x2b
            else
              if c == 120 then 0x4e else if c == 121 then 0xd4 else if c == 122 then 0xe5 else if c == 123 then 0xac else if c == 124 then 0x73 else if c == 125 then 0xf3 else if c == 126 then 0xa7 else 0x57
    else
      if c < 192 then
        if c < 160 then
          if c < 144 then
            if c < 136 then
              if c == 128 then 0x07 else if c == 129 then 0x70 else if c == 130 then 0xc0 else if c == 131 then 0xf7 else if c == 132 then 0x8c else if c == 133 then 0x80 else if c == 134 then 0x63 else 0x0d
            else
              if c == 136 then 0x67 else if c == 137 then 0x4a else if c == 138 then 0xde else if c == 139 then 0xed else if c == 140 then 0x31 else if c == 141 then 0xc5 else if c == 142 then 0xfe else 0x18
          else
            if c < 152 then
              if c == 144 then 0xe3 else if c == 145 then 0xa5 else if c == 146 then 0x99 else if c == 147 then 0x77 else if c == 148 then 0x26 else if c == 149 then 0xb8 else if c == 150 then 0xb4 else 0x7c
            else
              if c == 152 then 0x11 else if c == 153 then 0x44 else if c == 154 then 0x92 else if c == 155 then 0xd9 else if c == 156 then 0x23 else if c == 157 then 0x20 else if c == 158 then 0x89 else 0x2e
        else
          if c < 176 then
            if c < 168 then
              if c == 160 then 0x37 else if c == 161 then 0x3f else if c == 162 then 0xd1 else if c == 163 then 0x5b else if c == 164 then 0x95 else if c == 165 then 0xbc else if c == 166 then 0xcf else 0xcd
            else
              if c == 168 then 0x90 else if c == 169 then 0x87 else if c == 170 then 0x97 else if c == 171 then 0xb2 else if c == 172 then 0xdc else if c == 173 then 0xfc else if c == 174 then 0xbe else 0x61
          else
            if c < 184 then
              if c == 176 then 0xf2 else if c == 177 then 0x56 else if c == 178 then 0xd3 else if c == 179 then 0xab else if c == 180 then 0x14 else if c == 181 then 0x2a else if c == 182 then 0x5d else 0x9e
            else
              if c == 184 then 0x84 else if c == 185 then 0x3c else if c == 186 then 0x39 else if c == 187 then 0x53 else if c == 188 then 0x47 else if c == 189 then 0x6d else if c == 190 then 0x41 else 0xa2
      else
        if c < 224 then
          if c < 208 then
            if c < 200 then
              if c == 192 then 0x1f else if c == 193 then 0x2d else if c == 194 then 0x43 else if c == 195 then 0xd8 else if c == 196 then 0xb7 else if c == 197 then 0x7b else if c == 198 then 0xa4 else 0x76
            else
              if c == 200 then 0xc4 else if c == 201 then 0x17 else if c == 202 then 0x49 else if c == 203 then 0xec else if c == 204 then 0x7f else if c == 205 then 0x0c else if c == 206 then 0x6f else 0xf6
          else
            if c < 216 then
              if c == 208 then 0x6c else if c == 209 then 0xa1 else if c == 210 then 0x3b else if c == 211 then 0x52 else if c == 212 then 0x29 else if c == 213 then 0x9d else if c == 214 then 0x55 else 0xaa
            else
              if c == 216 then 0xfb else if c == 217 then 0x60 else if c == 218 then 0x86 else if c == 219 then 0xb1 else if c == 220 then 0xbb else if c == 221 then 0xcc else if c == 222 then 0x3e else 0x5a
        else
          if c < 240 then
            if c < 232 then
              if c == 224 then 0xcb else if c == 225 then 0x59 else if c == 226 then 0x5f else if c == 227 then 0xb0 else if c == 228 then 0x9c else if c == 229 then 0xa9 else if c == 230 then 0xa0 else 0x51
            else
              if c == 232 then 0x0b else if c == 233 then 0xf5 else if c == 234 then 0x16 else if c == 235 then 0xeb else if c == 236 then 0x7a else if c == 237 then 0x75 else if c == 238 then 0x2c else 0xd7
          else
            if c < 248 then
              if c == 240 then 0x4f else if c == 241 then 0xae else if c == 242 then 0xd5 else if c == 243 then 0xe9 else if c == 244 then 0xe6 else if c == 245 then 0xe7 else if c == 246 then 0xad else 0xe8
            else
              if c == 248 then 0x74 else if c == 249 then 0xd6 else if c == 250 then 0xf4 else if c == 251 then 0xea else if c == 252 then 0xa8 else if c == 253 then 0x50 else if c == 254 then 0x58 else 0xaf
  }
}
